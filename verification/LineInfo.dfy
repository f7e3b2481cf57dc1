// libbpf/src/bpf_prog_linfo.c: dissecting the JITed line records by function, and looking records up.
module LineInfo {
  import opened Prelude
  import opened Words

  const OFFSETOF_FILE_NAME_OFF: nat := 4
  const SIZEOF_U64: nat := 8

  /** struct bpf_line_info. */
  datatype Linfo = Linfo(insnOff: nat, fileNameOff: nat, lineOff: nat, lineCol: nat)

  /** What struct bpf_prog_info says about lines; an absent table is an empty one. */
  datatype ProgInfo = ProgInfo(
    lines: seq<Linfo>, recSize: nat,
    jited: seq<nat>, jitedRecSize: nat,
    ksyms: seq<nat>, funcLens: seq<nat>)

  function Offsets(lines: seq<Linfo>): (offs: seq<nat>)
    ensures |offs| == |lines|
    ensures forall k :: 0 <= k < |lines| ==> offs[k] == lines[k].insnOff
  {
    seq(|lines|, k requires 0 <= k < |lines| => lines[k].insnOff)
  }

  // ----- what a dissection is -----

  ghost predicate Increasing(s: seq<nat>, lo: int, hi: int)
    requires 0 <= lo && hi <= |s|
  {
    forall j, k :: lo <= j < k < hi ==> s[j] < s[k]
  }

  /** The u64 sanity check: the function's last address lies within its length. */
  predicate Sane(last: nat, start: nat, len: nat) {
    WrapU64(last as int - start as int + 1) <= len
  }

  /** Between record lo and record hi the addresses rise and the address `next` is not met. */
  ghost predicate Scanned(jited: seq<nat>, lo: int, hi: int, next: nat)
    requires 0 <= lo && hi <= |jited|
  {
    Increasing(jited, lo, hi) && forall k :: lo < k < hi ==> jited[k] != next
  }

  /** The first |starts| functions begin at these records. */
  ghost predicate Found(jited: seq<nat>, ksyms: seq<nat>, lens: seq<nat>, starts: seq<nat>) {
    && 0 < |starts| <= |ksyms| == |lens|
    && starts[0] == 0
    && (forall f :: 0 <= f < |starts| ==> starts[f] < |jited| && jited[starts[f]] == ksyms[f])
    && (forall f :: 0 < f < |starts| ==> Next(jited, ksyms, lens, starts, f))
  }

  ghost predicate Next(jited: seq<nat>, ksyms: seq<nat>, lens: seq<nat>, starts: seq<nat>, f: nat)
    requires 0 < f < |starts| <= |ksyms| == |lens| && starts[f] < |jited|
  {
    FollowsFrom(jited, ksyms, lens, starts[f - 1], starts[f], f)
  }

  /** Function f begins at record `at`, the first one after `prev` with its address. */
  ghost predicate FollowsFrom(
    jited: seq<nat>, ksyms: seq<nat>, lens: seq<nat>, prev: nat, at: nat, f: nat)
    requires 0 < f < |ksyms| && |lens| == |ksyms| && at < |jited|
  {
    prev < at && Scanned(jited, prev, at, ksyms[f]) && Sane(jited[at - 1], ksyms[f - 1], lens[f - 1])
  }

  ghost predicate IsDissection(jited: seq<nat>, ksyms: seq<nat>, lens: seq<nat>, starts: seq<nat>) {
    Found(jited, ksyms, lens, starts) && |starts| == |ksyms|
  }

  ghost predicate Dissectable(jited: seq<nat>, ksyms: seq<nat>, lens: seq<nat>) {
    exists starts :: IsDissection(jited, ksyms, lens, starts)
  }

  lemma ScannedOne(jited: seq<nat>, lo: nat, next: nat)
    requires lo < |jited|
    ensures Scanned(jited, lo, lo + 1, next)
  {
  }

  lemma ScannedMore(jited: seq<nat>, lo: nat, hi: nat, next: nat)
    requires lo < hi < |jited| && Scanned(jited, lo, hi, next)
    requires jited[hi - 1] < jited[hi] != next
    ensures Scanned(jited, lo, hi + 1, next)
  {
  }

  /** No two ways to find the same functions. */
  lemma {:induction false} FoundUnique(
    jited: seq<nat>, ksyms: seq<nat>, lens: seq<nat>, a: seq<nat>, b: seq<nat>)
    requires Found(jited, ksyms, lens, a) && Found(jited, ksyms, lens, b) && |a| <= |b|
    ensures a == b[..|a|]
  {
    if |a| > 1 {
      var f := |a| - 1;
      FoundPrefix(jited, ksyms, lens, a, f);
      FoundUnique(jited, ksyms, lens, a[..f], b);
      assert a[f - 1] == b[f - 1];
      assert Next(jited, ksyms, lens, a, f);
      assert Next(jited, ksyms, lens, b, f);
      assert jited[a[f]] == ksyms[f] && jited[b[f]] == ksyms[f];
    }
  }

  lemma FoundPrefix(jited: seq<nat>, ksyms: seq<nat>, lens: seq<nat>, a: seq<nat>, f: nat)
    requires Found(jited, ksyms, lens, a) && 0 < f <= |a|
    ensures Found(jited, ksyms, lens, a[..f])
  {
    var p := a[..f];
    forall g | 0 < g < f
      ensures Next(jited, ksyms, lens, p, g)
    {
      assert Next(jited, ksyms, lens, a, g);
    }
  }

  lemma FoundNext(jited: seq<nat>, ksyms: seq<nat>, lens: seq<nat>, a: seq<nat>, at: nat)
    requires Found(jited, ksyms, lens, a) && |a| < |ksyms| && at < |jited| && jited[at] == ksyms[|a|]
    requires FollowsFrom(jited, ksyms, lens, a[|a| - 1], at, |a|)
    ensures Found(jited, ksyms, lens, a + [at])
  {
    var p := a + [at];
    forall g | 0 < g < |p|
      ensures Next(jited, ksyms, lens, p, g)
    {
      if g < |a| {
        assert Next(jited, ksyms, lens, a, g);
      }
    }
  }

  /** The next start of any dissection that agrees so far lies beyond what was scanned. */
  lemma NextBeyond(
    jited: seq<nat>, ksyms: seq<nat>, lens: seq<nat>, a: seq<nat>, i: nat, d: seq<nat>)
    requires Found(jited, ksyms, lens, a) && |a| < |ksyms|
    requires a[|a| - 1] < i <= |jited| && Scanned(jited, a[|a| - 1], i, ksyms[|a|])
    requires IsDissection(jited, ksyms, lens, d)
    ensures d[|a| - 1] == a[|a| - 1] && i <= d[|a|] < |jited|
    ensures jited[d[|a|]] == ksyms[|a|]
    ensures Next(jited, ksyms, lens, d, |a|)
  {
    FoundUnique(jited, ksyms, lens, a, d);
    assert Next(jited, ksyms, lens, d, |a|);
    assert jited[d[|a|]] == ksyms[|a|];
  }

  /** Record i cannot continue the scan, so there is nothing to find. */
  lemma NoDissection(jited: seq<nat>, ksyms: seq<nat>, lens: seq<nat>, a: seq<nat>, i: nat)
    requires Found(jited, ksyms, lens, a) && |a| < |ksyms|
    requires a[|a| - 1] < i <= |jited| && Scanned(jited, a[|a| - 1], i, ksyms[|a|])
    requires i < |jited| ==>
      if jited[i] == ksyms[|a|] then !Sane(jited[i - 1], ksyms[|a| - 1], lens[|a| - 1])
      else jited[i] <= jited[i - 1]
    ensures !Dissectable(jited, ksyms, lens)
  {
    forall d | IsDissection(jited, ksyms, lens, d)
      ensures false
    {
      NextBeyond(jited, ksyms, lens, a, i, d);
    }
  }

  /** What the scan makes of the records from i on, after finding the first |starts| functions. */
  function Scan(jited: seq<nat>, ksyms: seq<nat>, lens: seq<nat>, starts: seq<nat>, i: nat): Option<seq<nat>>
    requires |ksyms| == |lens| && 0 < |starts| && 0 < i
    decreases |jited| - i
  {
    var f := |starts|;
    if i >= |jited| || f >= |ksyms| then if f == |ksyms| then Some(starts) else None
    else if ksyms[f] == jited[i] then
      if Sane(jited[i - 1], ksyms[f - 1], lens[f - 1]) then Scan(jited, ksyms, lens, starts + [i], i + 1) else None
    else if jited[i] <= jited[i - 1] then None
    else Scan(jited, ksyms, lens, starts, i + 1)
  }

  function Dissect(jited: seq<nat>, ksyms: seq<nat>, lens: seq<nat>): Option<seq<nat>>
    requires |jited| > 0 && |ksyms| == |lens| > 0
  {
    if ksyms[0] != jited[0] then None else Scan(jited, ksyms, lens, [0], 1)
  }

  lemma {:induction false} ScanFinds(jited: seq<nat>, ksyms: seq<nat>, lens: seq<nat>, starts: seq<nat>, i: nat)
    requires Found(jited, ksyms, lens, starts) && starts[|starts| - 1] < i <= |jited|
    requires |starts| < |ksyms| ==> Scanned(jited, starts[|starts| - 1], i, ksyms[|starts|])
    ensures match Scan(jited, ksyms, lens, starts, i)
      case None => !Dissectable(jited, ksyms, lens)
      case Some(d) => IsDissection(jited, ksyms, lens, d)
    decreases |jited| - i
  {
    var f := |starts|;
    if i < |jited| && f < |ksyms| {
      if ksyms[f] == jited[i] {
        if Sane(jited[i - 1], ksyms[f - 1], lens[f - 1]) {
          FoundNext(jited, ksyms, lens, starts, i);
          if f + 1 < |ksyms| {
            ScannedOne(jited, i, ksyms[f + 1]);
          }
          ScanFinds(jited, ksyms, lens, starts + [i], i + 1);
        } else {
          NoDissection(jited, ksyms, lens, starts, i);
        }
      } else if jited[i] <= jited[i - 1] {
        NoDissection(jited, ksyms, lens, starts, i);
      } else {
        ScannedMore(jited, starts[f - 1], i, ksyms[f]);
        ScanFinds(jited, ksyms, lens, starts, i + 1);
      }
    } else if f < |ksyms| {
      NoDissection(jited, ksyms, lens, starts, i);
    }
  }

  /** The scan returns the one dissection there is, and fails exactly when there is none. */
  lemma DissectIff(jited: seq<nat>, ksyms: seq<nat>, lens: seq<nat>, d: seq<nat>)
    requires |jited| > 0 && |ksyms| == |lens| > 0
    ensures Dissect(jited, ksyms, lens) == Some(d) <==> IsDissection(jited, ksyms, lens, d)
    ensures Dissect(jited, ksyms, lens) == None <==> !Dissectable(jited, ksyms, lens)
  {
    if ksyms[0] == jited[0] {
      ScannedOne(jited, 0, if |ksyms| > 1 then ksyms[1] else 0);
      ScanFinds(jited, ksyms, lens, [0], 1);
      var r := Scan(jited, ksyms, lens, [0], 1);
      if r.Some? && IsDissection(jited, ksyms, lens, d) {
        FoundUnique(jited, ksyms, lens, r.value, d);
        assert d[..|d|] == d;
      }
    }
  }

  // ----- what a dissection promises -----

  /** The number of records between each start and the next. */
  function Widths(starts: seq<nat>): (c: seq<int>)
    ensures |c| == if starts == [] then 0 else |starts| - 1
  {
    var n := |starts|;
    if n < 2 then [] else Widths(starts[..n - 1]) + [starts[n - 1] as int - starts[n - 2] as int]
  }

  /** The number of records of each function. */
  function Counts(starts: seq<nat>, n: nat): (c: seq<int>)
    ensures |c| == |starts|
  {
    Widths(starts + [n])
  }

  lemma {:induction false} WidthsAt(starts: seq<nat>, f: nat)
    requires f + 1 < |starts|
    ensures Widths(starts)[f] == starts[f + 1] as int - starts[f] as int
  {
    if f + 2 < |starts| {
      WidthsAt(starts[..|starts| - 1], f);
    }
  }

  lemma CountsAt(starts: seq<nat>, n: nat, f: nat)
    requires f < |starts|
    ensures Counts(starts, n)[f] == RangeEnd(starts, n, f) - starts[f]
  {
    WidthsAt(starts + [n], f);
  }

  /** Where the next function begins closes the last range so far. */
  lemma {:induction false} WidthsNext(starts: seq<nat>, at: nat)
    requires |starts| > 0
    ensures Widths(starts + [at]) == Widths(starts) + [at - starts[|starts| - 1]]
  {
  }

  function RangeEnd(starts: seq<nat>, n: nat, f: nat): nat
    requires f < |starts|
  {
    if f + 1 < |starts| then starts[f + 1] else n
  }

  /** Record k belongs to function f. */
  predicate InRange(starts: seq<nat>, n: nat, f: nat, k: nat)
    requires f < |starts|
  {
    starts[f] <= k < RangeEnd(starts, n, f)
  }

  lemma {:induction false} StartsIncrease(
    jited: seq<nat>, ksyms: seq<nat>, lens: seq<nat>, starts: seq<nat>, f: nat, g: nat)
    requires Found(jited, ksyms, lens, starts) && f < g < |starts|
    ensures starts[f] < starts[g]
    decreases g
  {
    assert Next(jited, ksyms, lens, starts, g);
    if f < g - 1 {
      StartsIncrease(jited, ksyms, lens, starts, f, g - 1);
    }
  }

  /** The function a record belongs to. */
  function Owner(starts: seq<nat>, k: nat): (f: nat)
    requires |starts| > 0 && starts[0] == 0
    ensures f < |starts| && InRange(starts, if k < starts[|starts| - 1] then starts[|starts| - 1] else k + 1, f, k)
    decreases |starts|
  {
    var last := |starts| - 1;
    if starts[last] <= k then last
    else
      var f := Owner(starts[..last], k);
      f
  }

  /** Record k belongs to function f and to no other. */
  ghost predicate OnlyOwner(starts: seq<nat>, n: nat, f: nat, k: nat)
    requires f < |starts|
  {
    InRange(starts, n, f, k) && forall g :: 0 <= g < |starts| && InRange(starts, n, g, k) ==> g == f
  }

  /** The ranges partition the records: each record belongs to exactly one function. */
  lemma RangesPartition(jited: seq<nat>, ksyms: seq<nat>, lens: seq<nat>, starts: seq<nat>, k: nat)
    requires IsDissection(jited, ksyms, lens, starts) && k < |jited|
    ensures exists f :: 0 <= f < |ksyms| && OnlyOwner(starts, |jited|, f, k)
  {
    var f := Owner(starts, k);
    assert InRange(starts, |jited|, f, k);
    forall g | 0 <= g < |ksyms| && InRange(starts, |jited|, g, k)
      ensures g == f
    {
      if g < f {
        OrderedRanges(jited, ksyms, lens, starts, g, f);
      } else if f < g {
        OrderedRanges(jited, ksyms, lens, starts, f, g);
      }
    }
    assert OnlyOwner(starts, |jited|, f, k);
  }

  /** An earlier function's records all come before a later function's. */
  lemma OrderedRanges(jited: seq<nat>, ksyms: seq<nat>, lens: seq<nat>, starts: seq<nat>, f: nat, g: nat)
    requires Found(jited, ksyms, lens, starts) && f < g < |starts|
    ensures RangeEnd(starts, |jited|, f) <= starts[g]
  {
    if f + 1 < g {
      StartsIncrease(jited, ksyms, lens, starts, f + 1, g);
    }
  }

  /** Each range is not empty and starts at its function's address; all but the last have rising addresses. */
  lemma RangesRise(jited: seq<nat>, ksyms: seq<nat>, lens: seq<nat>, starts: seq<nat>, f: nat)
    requires IsDissection(jited, ksyms, lens, starts) && f < |ksyms|
    ensures starts[f] < RangeEnd(starts, |jited|, f) <= |jited|
    ensures jited[starts[f]] == ksyms[f]
    ensures f + 1 < |ksyms| ==> Increasing(jited, starts[f], starts[f + 1])
  {
    if f + 1 < |ksyms| {
      assert Next(jited, ksyms, lens, starts, f + 1);
    }
  }

  /** The addresses of every function but the last lie within its length. The one exception is a wrap:
      a function at address 0 whose records reach the top of the address space. */
  lemma RangesWithin(jited: seq<nat>, ksyms: seq<nat>, lens: seq<nat>, starts: seq<nat>, f: nat, k: nat)
    requires IsDissection(jited, ksyms, lens, starts) && f + 1 < |ksyms|
    requires forall j :: 0 <= j < |jited| ==> jited[j] < TWO64
    requires starts[f] <= k < starts[f + 1]
    ensures ksyms[f] <= jited[k]
    ensures jited[k] < ksyms[f] + lens[f] || (ksyms[f] == 0 && jited[starts[f + 1] - 1] == TWO64 - 1)
  {
    var at := starts[f + 1];
    assert Next(jited, ksyms, lens, starts, f + 1);
    assert Sane(jited[at - 1], ksyms[f], lens[f]);
    assert jited[starts[f]] == ksyms[f];
  }

  /** Every record of function f lies within its length. */
  ghost predicate Within(jited: seq<nat>, ksyms: seq<nat>, lens: seq<nat>, starts: seq<nat>, f: nat)
    requires f + 1 < |starts| && f < |ksyms| == |lens| && starts[f + 1] <= |jited|
  {
    forall k :: starts[f] <= k < starts[f + 1] ==> ksyms[f] <= jited[k] < ksyms[f] + lens[f]
  }

  /** Function f begins at address 0 and its records reach the top of the address space. */
  predicate Wraps(jited: seq<nat>, ksyms: seq<nat>, starts: seq<nat>, f: nat)
    requires f + 1 < |starts| && f < |ksyms| && 0 < starts[f + 1] <= |jited|
  {
    ksyms[f] == 0 && jited[starts[f + 1] - 1] == TWO64 - 1
  }

  /** The records of every function but the last lie within its length, exactly when the length check does not wrap. */
  lemma RangesWithinIff(jited: seq<nat>, ksyms: seq<nat>, lens: seq<nat>, starts: seq<nat>, f: nat)
    requires IsDissection(jited, ksyms, lens, starts) && f + 1 < |ksyms|
    requires (forall j :: 0 <= j < |jited| ==> jited[j] < TWO64) && forall j :: 0 <= j < |lens| ==> lens[j] < TWO64
    ensures 0 < starts[f + 1] <= |jited|
    ensures Within(jited, ksyms, lens, starts, f) <==> !Wraps(jited, ksyms, starts, f)
  {
    var at := starts[f + 1];
    assert Next(jited, ksyms, lens, starts, f + 1);
    forall k: nat | starts[f] <= k < at
      ensures ksyms[f] <= jited[k]
      ensures jited[k] < ksyms[f] + lens[f] || Wraps(jited, ksyms, starts, f)
    {
      RangesWithin(jited, ksyms, lens, starts, f, k);
    }
    assert starts[f] <= at - 1 && lens[f] < TWO64;
  }

  const WRAP_JITED: seq<nat> := [0, 0xffff_ffff_ffff_ffff, 100]
  const WRAP_KSYMS: seq<nat> := [0, 100]
  const WRAP_LENS: seq<nat> := [64, 64]

  /** An accepted dissection whose first function has a record far outside its length. */
  lemma WrapAccepted()
    ensures IsDissection(WRAP_JITED, WRAP_KSYMS, WRAP_LENS, [0, 2])
    ensures !Within(WRAP_JITED, WRAP_KSYMS, WRAP_LENS, [0, 2], 0)
  {
    assert FollowsFrom(WRAP_JITED, WRAP_KSYMS, WRAP_LENS, 0, 2, 1);
    assert WRAP_JITED[1] >= 64;
  }

  const UNCHECKED_JITED: seq<nat> := [100, 104, 200, 196, 208]
  const UNCHECKED_KSYMS: seq<nat> := [100, 200]
  const UNCHECKED_LENS: seq<nat> := [64, 64]

  /** The scan stops at the last function, so falling addresses inside it are accepted. */
  lemma LastUnchecked()
    ensures IsDissection(UNCHECKED_JITED, UNCHECKED_KSYMS, UNCHECKED_LENS, [0, 2])
    ensures !Increasing(UNCHECKED_JITED, 2, 5)
  {
    assert FollowsFrom(UNCHECKED_JITED, UNCHECKED_KSYMS, UNCHECKED_LENS, 0, 2, 1);
    assert UNCHECKED_JITED[2] > UNCHECKED_JITED[3];
  }

  // ----- lookups -----

  /** The length of the longest prefix whose elements are all at most x. */
  function PrefixNotAbove(s: seq<nat>, x: nat): (n: nat)
    ensures n <= |s|
  {
    if s == [] || x < s[0] then 0 else PrefixNotAbove(s[1..], x) + 1
  }

  /** n elements from the start are at most x, and the next one, if any, is not. */
  ghost predicate IsPrefix(s: seq<nat>, x: nat, n: nat) {
    n <= |s| && (forall k :: 0 <= k < n ==> s[k] <= x) && (n < |s| ==> x < s[n])
  }

  lemma {:induction false} PrefixUnique(s: seq<nat>, x: nat, n: nat)
    ensures n == PrefixNotAbove(s, x) <==> IsPrefix(s, x, n)
  {
    if s != [] && x >= s[0] {
      if n > 0 {
        PrefixUnique(s[1..], x, n - 1);
        if IsPrefix(s[1..], x, n - 1) {
          assert forall k :: 1 <= k < n ==> s[k] == s[1..][k - 1];
        }
        if IsPrefix(s, x, n) {
          assert forall k :: 0 <= k < n - 1 ==> s[1..][k] == s[k + 1];
        }
      }
    }
  }

  lemma PrefixOfRange(s: seq<nat>, from: nat, end: nat, x: nat, n: nat)
    requires from + n <= end <= |s|
    requires (forall k :: from <= k < from + n ==> s[k] <= x) && (from + n < end ==> x < s[from + n])
    ensures PrefixNotAbove(s[from..end], x) == n
  {
    PrefixUnique(s[from..end], x, n);
  }

  /** r is the last element not above x, counted from `start`; None if there is none. */
  ghost predicate LastNotAbove(s: seq<nat>, start: nat, x: nat, r: Option<nat>) {
    match r
    case None => forall k :: 0 <= k < |s| ==> s[k] > x
    case Some(i) =>
      && start <= i < start + |s|
      && s[i - start] <= x
      && forall k :: i - start < k < |s| ==> s[k] > x
  }

  /** What both lookups return. */
  function Lookup(s: seq<nat>, start: nat, x: nat): Option<nat> {
    var n := PrefixNotAbove(s, x);
    if n == 0 then None else Some(start + n - 1)
  }

  ghost predicate Nondecreasing(s: seq<nat>) { forall j, k :: 0 <= j < k < |s| ==> s[j] <= s[k] }

  ghost predicate AlwaysLast(s: seq<nat>, start: nat) {
    forall x: nat :: LastNotAbove(s, start, x, Lookup(s, start, x))
  }

  /** Looking up finds the last record not above every key, exactly when the keys do not decrease. */
  lemma LookupIff(s: seq<nat>, start: nat)
    ensures AlwaysLast(s, start) <==> Nondecreasing(s)
  {
    if Nondecreasing(s) {
      forall x: nat
        ensures LastNotAbove(s, start, x, Lookup(s, start, x))
      {
        PrefixUnique(s, x, PrefixNotAbove(s, x));
      }
    }
    if !Nondecreasing(s) {
      var j, k :| 0 <= j < k < |s| && s[j] > s[k];
      PrefixUnique(s, s[k], PrefixNotAbove(s, s[k]));
      assert !LastNotAbove(s, start, s[k], Lookup(s, start, s[k]));
    }
  }

  /** struct bpf_prog_linfo. */
  class ProgLinfo {
    const rawLinfo: seq<Linfo>
    const rawJitedLinfo: seq<nat>
    const nrJitedFunc: nat
    const nrJitedLinfoPerFunc: array<int>
    const jitedLinfoFuncIdx: array<nat>

    constructor (lines: seq<Linfo>, jited: seq<nat>, nrFunc: nat)
      ensures rawLinfo == lines && rawJitedLinfo == jited && nrJitedFunc == nrFunc
      ensures fresh(nrJitedLinfoPerFunc) && fresh(jitedLinfoFuncIdx)
      ensures nrJitedLinfoPerFunc.Length == jitedLinfoFuncIdx.Length == nrFunc
    {
      rawLinfo, rawJitedLinfo, nrJitedFunc := lines, jited, nrFunc;
      nrJitedLinfoPerFunc := new int[nrFunc];
      jitedLinfoFuncIdx := new nat[nrFunc];
    }

    ghost predicate Sized() {
      && nrJitedLinfoPerFunc.Length == jitedLinfoFuncIdx.Length == nrJitedFunc
      && (nrJitedFunc > 0 ==> |rawJitedLinfo| == |rawLinfo| > 0)
    }

    /** The two index arrays hold the dissection of the JITed records, if there are any. */
    ghost predicate Dissected(ksyms: seq<nat>, lens: seq<nat>)
      reads nrJitedLinfoPerFunc, jitedLinfoFuncIdx
    {
      && Sized() && |ksyms| == nrJitedFunc
      && (nrJitedFunc > 0 ==>
            && IsDissection(rawJitedLinfo, ksyms, lens, jitedLinfoFuncIdx[..])
            && nrJitedLinfoPerFunc[..] == Counts(jitedLinfoFuncIdx[..], |rawJitedLinfo|))
    }

    /** Function f is met at record i, after function f - 1 at record prev. */
    method RecordFunc(ksyms: seq<nat>, lens: seq<nat>, prev: nat, i: nat, f: nat) returns (ok: bool)
      requires Sized() && 0 < f < nrJitedFunc && f <= |ksyms| == |lens| && 0 < i <= |rawJitedLinfo|
      requires nrJitedLinfoPerFunc != jitedLinfoFuncIdx as object
      modifies nrJitedLinfoPerFunc, jitedLinfoFuncIdx
      ensures ok <==> Sane(rawJitedLinfo[i - 1], ksyms[f - 1], lens[f - 1])
      ensures ok ==> jitedLinfoFuncIdx[..f + 1] == old(jitedLinfoFuncIdx[..f]) + [i]
      ensures ok ==> nrJitedLinfoPerFunc[..f] == old(nrJitedLinfoPerFunc[..f - 1]) + [i - prev]
    {
      Store(jitedLinfoFuncIdx, f, i);
      if WrapU64(rawJitedLinfo[i - 1] as int - ksyms[f - 1] as int + 1) > lens[f - 1] {
        return false;
      }
      Store(nrJitedLinfoPerFunc, f - 1, i - prev);
      return true;
    }

    /** Stores the dissection of the JITed records, or fails when there is none. */
    method DissectJitedFunc(ksyms: seq<nat>, lens: seq<nat>) returns (ok: bool)
      requires Sized() && |ksyms| == |lens| == nrJitedFunc > 0
      requires nrJitedLinfoPerFunc != jitedLinfoFuncIdx as object
      modifies nrJitedLinfoPerFunc, jitedLinfoFuncIdx
      ensures ok <==> Dissect(rawJitedLinfo, ksyms, lens).Some?
      ensures ok ==> jitedLinfoFuncIdx[..] == Dissect(rawJitedLinfo, ksyms, lens).value
      ensures ok ==> nrJitedLinfoPerFunc[..] == Counts(jitedLinfoFuncIdx[..], |rawJitedLinfo|)
    {
      var jited, n := rawJitedLinfo, |rawJitedLinfo|;
      if ksyms[0] != jited[0] {
        return false;
      }
      Store(jitedLinfoFuncIdx, 0, 0);
      var prev, i, f := 0, 1, 1;
      ghost var starts: seq<nat> := [0];
      while i < n && f < nrJitedFunc
        invariant 0 < f <= nrJitedFunc && 0 < i <= n
        invariant |starts| == f && starts[f - 1] == prev && jitedLinfoFuncIdx[..f] == starts
        invariant nrJitedLinfoPerFunc[..f - 1] == Widths(starts)
        invariant Scan(jited, ksyms, lens, starts, i) == Dissect(jited, ksyms, lens)
      {
        if ksyms[f] == jited[i] {
          ok := RecordFunc(ksyms, lens, prev, i, f);
          if !ok {
            return;
          }
          WidthsNext(starts, i);
          prev := i;
          starts := starts + [i];
          f := f + 1;
        } else if jited[i] <= jited[i - 1] {
          return false;
        }
        i := i + 1;
      }
      if f != nrJitedFunc {
        return false;
      }
      Store(nrJitedLinfoPerFunc, nrJitedFunc - 1, n - prev);
      WidthsNext(starts, n);
      assert jitedLinfoFuncIdx[..] == jitedLinfoFuncIdx[..f];
      assert nrJitedLinfoPerFunc[..] == nrJitedLinfoPerFunc[..f];
      return true;
    }

    /** bpf_prog_linfo__lfind_addr_func; the record is named by its position in both tables. */
    method LfindAddrFunc(addr: nat, funcIdx: nat, nrSkip: nat, ghost ksyms: seq<nat>, ghost lens: seq<nat>)
      returns (r: Option<nat>)
      requires Dissected(ksyms, lens)
      ensures r ==
        if funcIdx >= nrJitedFunc then None
        else
          var start := jitedLinfoFuncIdx[funcIdx] + nrSkip;
          var end := RangeEnd(jitedLinfoFuncIdx[..], |rawJitedLinfo|, funcIdx);
          if start >= end then None else Lookup(rawJitedLinfo[start..end], start, addr)
    {
      if funcIdx >= nrJitedFunc {
        return None;
      }
      RangesRise(rawJitedLinfo, ksyms, lens, jitedLinfoFuncIdx[..], funcIdx);
      CountsAt(jitedLinfoFuncIdx[..], |rawJitedLinfo|, funcIdx);
      assert nrJitedLinfoPerFunc[..][funcIdx] == nrJitedLinfoPerFunc[funcIdx];
      var n := nrJitedLinfoPerFunc[funcIdx];
      if nrSkip >= n {
        return None;
      }
      r := Search(rawJitedLinfo, jitedLinfoFuncIdx[funcIdx] + nrSkip, n - nrSkip, addr);
    }

    /** bpf_prog_linfo__lfind, by instruction offset. */
    method Lfind(insnOff: nat, nrSkip: nat) returns (r: Option<nat>)
      ensures r ==
        if nrSkip >= |rawLinfo| then None
        else Lookup(Offsets(rawLinfo)[nrSkip..], nrSkip, insnOff)
    {
      var n := |rawLinfo|;
      if nrSkip >= n {
        return None;
      }
      r := Search(Offsets(rawLinfo), nrSkip, n - nrSkip, insnOff);
      assert Offsets(rawLinfo)[nrSkip..n] == Offsets(rawLinfo)[nrSkip..];
    }
  }

  /** The loop both lookups run over n records from `start`. */
  method Search(keys: seq<nat>, start: nat, n: int, x: nat) returns (r: Option<nat>)
    requires n > 0 && start + n <= |keys|
    ensures r == Lookup(keys[start..start + n], start, x)
  {
    if x < keys[start] {
      PrefixOfRange(keys, start, start + n, x, 0);
      return None;
    }
    var i := 0;
    while i < n
      invariant 0 <= i <= n
      invariant forall k :: start <= k < start + i ==> keys[k] <= x
    {
      if x < keys[start + i] {
        break;
      }
      i := i + 1;
    }
    PrefixOfRange(keys, start, start + n, x, i);
    return Some(start + i - 1);
  }

  /** One more element at the front of what an array holds. */
  method Store<T>(a: array<T>, k: nat, v: T)
    requires k < a.Length
    modifies a
    ensures a[..k] == old(a[..k]) && a[..k + 1] == old(a[..k]) + [v]
  {
    a[k] := v;
  }

  predicate HasJited(info: ProgInfo) {
    && |info.ksyms| > 0 && |info.jited| == |info.lines| && info.jitedRecSize >= SIZEOF_U64
    && |info.funcLens| == |info.ksyms|
  }

  /** bpf_prog_linfo__new: fails exactly without lines, with short records, or with undissectable JITed lines. */
  method NewProgLinfo(info: ProgInfo) returns (p: ProgLinfo?)
    ensures var jited := |info.ksyms| >= 1 && |info.lines| == |info.jited| && info.jitedRecSize >= 8
                         && |info.ksyms| == |info.funcLens|;
      && (p == null <==>
            || |info.lines| == 0 || info.recSize < 4
            || (jited && !Dissectable(info.jited, info.ksyms, info.funcLens)))
      && (p != null ==> p.Dissected(if jited then info.ksyms else [], info.funcLens))
      && (p != null && jited ==> p.rawJitedLinfo == info.jited)
    ensures p != null ==> fresh(p) && p.rawLinfo == info.lines
  {
    if info.lines == [] || info.recSize < OFFSETOF_FILE_NAME_OFF {
      return null;
    }
    if !HasJited(info) {
      p := new ProgLinfo(info.lines, [], 0);
      return;
    }
    p := new ProgLinfo(info.lines, info.jited, |info.ksyms|);
    var ok := p.DissectJitedFunc(info.ksyms, info.funcLens);
    DissectIff(info.jited, info.ksyms, info.funcLens, p.jitedLinfoFuncIdx[..]);
    if !ok {
      return null;
    }
  }

  /** By address, every function but the last gets the last record not above the address, after any skip;
      the last function does for all addresses exactly when its remaining addresses do not decrease. */
  lemma AddressLookup(
    jited: seq<nat>, ksyms: seq<nat>, lens: seq<nat>, starts: seq<nat>, f: nat, skip: nat)
    requires IsDissection(jited, ksyms, lens, starts) && f < |ksyms|
    requires starts[f] + skip < RangeEnd(starts, |jited|, f) <= |jited|
    ensures var s := jited[starts[f] + skip..RangeEnd(starts, |jited|, f)];
      AlwaysLast(s, starts[f] + skip) <==> f + 1 < |ksyms| || Nondecreasing(s)
  {
    var from, end := starts[f] + skip, RangeEnd(starts, |jited|, f);
    var s := jited[from..end];
    LookupIff(s, from);
    RangesRise(jited, ksyms, lens, starts, f);
    if f + 1 < |ksyms| {
      forall j, k | 0 <= j < k < |s|
        ensures s[j] <= s[k]
      {
        assert s[j] == jited[from + j] && s[k] == jited[from + k];
      }
    }
  }
}
