// bpftool/src/xlated_dumper.c: the instruction loop of dump_xlated_plain and its line cursor.
module Dump {
  import opened Prelude
  import opened Ebpf
  import opened LineInfo

  /** One printed instruction, after the line record printed before it, if any. */
  datatype Shown = Shown(insn: nat, line: Option<nat>)

  /** The instruction slots that are the second half of a 16-byte load. */
  predicate IsSecondHalf(insns: seq<Insn>, i: nat)
    requires i <= |insns|
  {
    i > 0 && IsWide(insns[i - 1]) && !IsSecondHalf(insns, i - 1)
  }

  /** The slots below n at which an instruction starts, in order. */
  function Starts(insns: seq<Insn>, n: nat): seq<nat>
    requires n <= |insns|
  {
    if n == 0 then [] else Starts(insns, n - 1) + if IsSecondHalf(insns, n - 1) then [] else [n - 1]
  }

  lemma {:induction false} StartsAre(insns: seq<Insn>, n: nat, k: nat)
    requires n <= |insns|
    ensures k in Starts(insns, n) <==> k < n && !IsSecondHalf(insns, k)
  {
    if n > 0 {
      StartsAre(insns, n - 1, k);
    }
  }

  function Insns(out: seq<Shown>): (s: seq<nat>)
    ensures |s| == |out|
  {
    if out == [] then [] else Insns(out[..|out| - 1]) + [out[|out| - 1].insn]
  }

  /** The records printed, each with the instruction it was printed at. */
  function Lines(out: seq<Shown>): seq<(nat, nat)> {
    if out == [] then []
    else
      var last := out[|out| - 1];
      Lines(out[..|out| - 1]) + match last.line { case None => [] case Some(r) => [(r, last.insn)] }
  }

  /** The first n records, each at its own instruction. */
  function Own(offs: seq<nat>, n: nat): (s: seq<(nat, nat)>)
    requires n <= |offs|
    ensures |s| == n
    ensures forall k :: 0 <= k < n ==> s[k] == (k, offs[k])
  {
    seq(n, k requires 0 <= k < n => (k, offs[k]))
  }

  /** Records in strictly increasing order, each at the start of an instruction of the program. */
  ghost predicate Placed(insns: seq<Insn>, offs: seq<nat>) {
    && (forall j, k :: 0 <= j < k < |offs| ==> offs[j] < offs[k])
    && (forall k :: 0 <= k < |offs| ==> offs[k] < |insns| && !IsSecondHalf(insns, offs[k]))
  }

  /** n is the number of records whose offset is below i. */
  ghost predicate Below(offs: seq<nat>, i: nat, n: nat) {
    && n <= |offs|
    && (forall k :: 0 <= k < n ==> offs[k] < i)
    && (forall k :: n <= k < |offs| ==> i <= offs[k])
  }

  /** The records printed so far sit at increasing instruction starts below i. */
  ghost predicate LinesRise(insns: seq<Insn>, lines: seq<(nat, nat)>, i: nat)
    requires i <= |insns|
  {
    && (forall k :: 0 <= k < |lines| ==> lines[k].1 < i && !IsSecondHalf(insns, lines[k].1))
    && (forall j, k :: 0 <= j < k < |lines| ==> lines[j].1 < lines[k].1)
  }

  /** What the lookup from record n on returns at instruction i. */
  function LineAt(offs: seq<nat>, i: nat, n: nat): Option<nat> {
    if n >= |offs| then None else Lookup(offs[n..], n, i)
  }

  /** What the loop has printed, and its cursor, before slot n. */
  function Show(insns: seq<Insn>, offs: seq<nat>, n: nat): (seq<Shown>, nat)
    requires n <= |insns|
  {
    if n == 0 then ([], 0)
    else
      var (out, skip) := Show(insns, offs, n - 1);
      if IsSecondHalf(insns, n - 1) then (out, skip)
      else
        var line := LineAt(offs, n - 1, skip);
        (out + [Shown(n - 1, line)], if line.Some? then skip + 1 else skip)
  }

  lemma ShownNext(out: seq<Shown>, e: Shown)
    ensures Insns(out + [e]) == Insns(out) + [e.insn]
    ensures Lines(out + [e]) == Lines(out) + match e.line { case None => [] case Some(r) => [(r, e.insn)] }
  {
  }

  lemma LineOwn(offs: seq<nat>, i: nat, n: nat)
    requires Below(offs, i, n) && forall j, k :: 0 <= j < k < |offs| ==> offs[j] < offs[k]
    ensures LineAt(offs, i, n) == if n < |offs| && offs[n] == i then Some(n) else None
    ensures Below(offs, i + 1, if n < |offs| && offs[n] == i then n + 1 else n)
  {
    if n < |offs| {
      assert offs[n..][0] == offs[n];
      PrefixUnique(offs[n..], i, if offs[n] == i then 1 else 0);
    }
  }

  lemma RiseNext(insns: seq<Insn>, lines: seq<(nat, nat)>, i: nat, r: nat)
    requires i < |insns| && LinesRise(insns, lines, i)
    ensures LinesRise(insns, lines, i + 1)
    ensures !IsSecondHalf(insns, i) ==> LinesRise(insns, lines + [(r, i)], i + 1)
  {
  }

  /** Every instruction is printed once. */
  lemma {:induction false} ShowInsns(insns: seq<Insn>, offs: seq<nat>, n: nat)
    requires n <= |insns|
    ensures Insns(Show(insns, offs, n).0) == Starts(insns, n)
  {
    if n > 0 {
      ShowInsns(insns, offs, n - 1);
      var (out, skip) := Show(insns, offs, n - 1);
      ShownNext(out, Shown(n - 1, LineAt(offs, n - 1, skip)));
    }
  }

  /** The records printed sit at increasing instruction starts. */
  lemma {:induction false} ShowRises(insns: seq<Insn>, offs: seq<nat>, n: nat)
    requires n <= |insns|
    ensures LinesRise(insns, Lines(Show(insns, offs, n).0), n)
  {
    if n > 0 {
      ShowRises(insns, offs, n - 1);
      var (out, skip) := Show(insns, offs, n - 1);
      var line := LineAt(offs, n - 1, skip);
      RiseNext(insns, Lines(out), n - 1, if line.Some? then line.value else 0);
      ShownNext(out, Shown(n - 1, line));
    }
  }

  lemma LinesNext(offs: seq<nat>, out: seq<Shown>, i: nat, n: nat)
    requires n <= |offs| && Lines(out) == Own(offs, n)
    ensures var own := n < |offs| && offs[n] == i;
      Lines(out + [Shown(i, if own then Some(n) else None)]) == Own(offs, if own then n + 1 else n)
  {
  }

  /** With placed records the cursor counts the records below the slot. */
  lemma {:induction false} ShowCursor(insns: seq<Insn>, offs: seq<nat>, n: nat)
    requires n <= |insns| && Placed(insns, offs)
    ensures Below(offs, n, Show(insns, offs, n).1)
  {
    if n > 0 {
      ShowCursor(insns, offs, n - 1);
      var skip := Show(insns, offs, n - 1).1;
      if IsSecondHalf(insns, n - 1) {
        BelowNext(insns, offs, n - 1, skip);
      } else {
        LineOwn(offs, n - 1, skip);
      }
    }
  }

  /** Exactly the records below the slot were printed, each at its own instruction. */
  lemma {:induction false} ShowLines(insns: seq<Insn>, offs: seq<nat>, n: nat)
    requires n <= |insns| && Placed(insns, offs)
    ensures Show(insns, offs, n).1 <= |offs|
    ensures Lines(Show(insns, offs, n).0) == Own(offs, Show(insns, offs, n).1)
  {
    if n > 0 {
      ShowLines(insns, offs, n - 1);
      ShowCursor(insns, offs, n - 1);
      var (out, skip) := Show(insns, offs, n - 1);
      LineOwn(offs, n - 1, skip);
      LinesNext(offs, out, n - 1, skip);
    }
  }

  /** No record belongs to a skipped slot. */
  lemma BelowNext(insns: seq<Insn>, offs: seq<nat>, i: nat, n: nat)
    requires Placed(insns, offs) && Below(offs, i, n) && i < |insns| && IsSecondHalf(insns, i)
    ensures Below(offs, i + 1, n)
  {
  }

  lemma RecordInside(insns: seq<Insn>, offs: seq<nat>, k: nat)
    requires Placed(insns, offs)
    ensures k < |offs| ==> offs[k] < |insns|
  {
  }

  lemma AllBelow(insns: seq<Insn>, offs: seq<nat>, n: nat)
    requires Placed(insns, offs) && Below(offs, |insns|, n)
    ensures n == |offs|
  {
    RecordInside(insns, offs, n);
  }

  /** Every record is printed exactly once, at its own instruction and in order, exactly when the records are placed
      at instruction starts in increasing order. */
  lemma ShowIff(insns: seq<Insn>, offs: seq<nat>)
    ensures Lines(Show(insns, offs, |insns|).0) == Own(offs, |offs|) <==> Placed(insns, offs)
  {
    var (out, skip) := Show(insns, offs, |insns|);
    if Placed(insns, offs) {
      ShowLines(insns, offs, |insns|);
      ShowCursor(insns, offs, |insns|);
      AllBelow(insns, offs, skip);
    }
    if Lines(out) == Own(offs, |offs|) {
      ShowRises(insns, offs, |insns|);
      ShownPlaced(insns, offs, Lines(out));
    }
  }

  /** Records that were all printed at rising starts are placed. */
  lemma ShownPlaced(insns: seq<Insn>, offs: seq<nat>, lines: seq<(nat, nat)>)
    requires LinesRise(insns, lines, |insns|) && lines == Own(offs, |offs|)
    ensures Placed(insns, offs)
  {
  }

  method DumpXlatedPlain(insns: seq<Insn>, progLinfo: ProgLinfo?) returns (out: seq<Shown>)
    ensures Insns(out) == Starts(insns, |insns|)
    ensures var offs := if progLinfo == null then [] else Offsets(progLinfo.rawLinfo);
      && out == Show(insns, offs, |insns|).0
      && (Lines(out) == Own(offs, |offs|) <==> Placed(insns, offs))
  {
    out := [];
    var nrSkip, doubleInsn := 0, false;
    ghost var offs := if progLinfo == null then [] else Offsets(progLinfo.rawLinfo);
    for i := 0 to |insns|
      invariant doubleInsn == IsSecondHalf(insns, i)
      invariant (out, nrSkip) == Show(insns, offs, i)
    {
      if doubleInsn {
        doubleInsn := false;
        continue;
      }
      var line := None;
      if progLinfo != null {
        line := progLinfo.Lfind(i, nrSkip);
        if line.Some? {
          nrSkip := nrSkip + 1;
        }
      }
      doubleInsn := IsWide(insns[i]);
      out := out + [Shown(i, line)];
    }
    ShowInsns(insns, offs, |insns|);
    ShowIff(insns, offs);
  }
}
