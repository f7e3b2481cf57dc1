// libbpf/src/hashmap.h: the order of a key's values over runs of APPEND, and what find returns after them.
module HashOrder {
  import opened Prelude
  import opened Words
  import opened HashSpec
  import opened HashLaws
  import opened HashRuns

  /** The capacity bits after n appends. */
  function BitsAfter(n: nat): nat {
    if n == 0 then 0
    else if NeedsToGrow(n - 1, BitsAfter(n - 1)) then NewBits(BitsAfter(n - 1))
    else BitsAfter(n - 1)
  }

  /** The append that finds n entries grows the table first. */
  predicate GrowsAt(n: nat) { NeedsToGrow(n, BitsAfter(n)) }

  lemma {:induction false} Pow2Monotone(a: nat, b: nat)
    requires a < b
    ensures 2 * Pow2(a) <= Pow2(b)
  {
    if a + 1 < b {
      Pow2Monotone(a, b - 1);
    }
  }

  /** After n appends the table is the smallest of 4, 8, 16, .. buckets that n entries fill to three quarters at most. */
  lemma {:induction false} SizeAfter(n: nat)
    requires n > 0
    ensures var b := BitsAfter(n);
      b >= 2 && n <= 3 * Pow2(b - 2) && (b > 2 ==> 3 * Pow2(b - 3) < n)
  {
    if n > 1 {
      SizeAfter(n - 1);
    }
    GrowsIff(n - 1, BitsAfter(n - 1));
  }

  /** The append that finds n entries, n not 0, grows the table exactly when they fill it to three quarters. */
  lemma GrowsWhenFull(n: nat)
    requires n > 0
    ensures BitsAfter(n) >= 2 && (GrowsAt(n) <==> n == 3 * Pow2(BitsAfter(n) - 2))
  {
    SizeAfter(n);
    FullIff(n, BitsAfter(n));
  }

  lemma FullIff(n: nat, bits: nat)
    requires bits >= 2 && n <= 3 * Pow2(bits - 2)
    ensures NeedsToGrow(n, bits) <==> n == 3 * Pow2(bits - 2)
  {
    GrowsIff(n, bits);
  }

  /** If they are 3 * 2^k entries they do. */
  lemma PointIsFull(n: nat, k: nat)
    requires n == 3 * Pow2(k)
    ensures BitsAfter(n) == k + 2
  {
    SizeAfter(n);
    if k < BitsAfter(n) - 2 {
      PowAtLeast(k, BitsAfter(n) - 3);
    } else if k > BitsAfter(n) - 2 {
      Pow2Monotone(BitsAfter(n) - 2, k);
    }
  }

  /** The appends that grow the table are the first one and those that find 3, 6, 12, 24, .. entries. */
  lemma GrowthPoints(n: nat)
    ensures GrowsAt(n) <==> n == 0 || exists k: nat :: IsPoint(n, k)
  {
    if n == 0 {
      GrowsIff(0, 0);
    } else {
      GrowsWhenFull(n);
      if GrowsAt(n) {
        assert IsPoint(n, BitsAfter(n) - 2);
      }
      if k: nat :| IsPoint(n, k) {
        PointIsFull(n, k);
      }
    }
  }

  predicate IsPoint(n: nat, k: nat) { n == 3 * Pow2(k) }

  /** Whether the append that finds n entries grows the table. */
  type Schedule = nat -> bool

  /** How many of the appends i, i + 1, .., n - 1 grow the table. */
  function Growths(grows: Schedule, i: nat, n: nat): nat
    requires i <= n
    decreases n
  {
    if i == n then 0 else Growths(grows, i, n - 1) + if grows(n - 1) then 1 else 0
  }

  /** The values of a key, and whether iteration visits them from the back. */
  datatype Deque = Deque(values: seq<int>, turned: bool)

  function Shown(d: Deque): seq<int> { if d.turned then Reverse(d.values) else d.values }

  /** A growth turns the values around. */
  function Turn(d: Deque, grows: bool): Deque { d.(turned := d.turned != grows) }

  /** A new value goes where iteration starts. */
  function Push(d: Deque, v: int): Deque {
    d.(values := if d.turned then d.values + [v] else [v] + d.values)
  }

  /** The values of key k over a run: each append first turns them if it grows the table, then pushes its own. */
  function Values(f: Fns, grows: Schedule, ops: seq<Op>, k: int): Deque {
    if ops == [] then Deque([], false)
    else
      var n := |ops| - 1;
      var d := Turn(Values(f, grows, ops[..n], k), grows(n));
      if ops[n].Ins? && f.eq(k, ops[n].key) then Push(d, ops[n].value) else d
  }

  lemma {:induction false} ReverseTwice<T>(s: seq<T>)
    ensures Reverse(Reverse(s)) == s
  {
    if s != [] {
      var rest := s[1..];
      ReverseTwice(rest);
      assert s == [s[0]] + rest;
      ReverseConcat([s[0]], rest);
      ReverseShort([s[0]]);
      ReverseConcat(Reverse(rest), [s[0]]);
    }
  }

  lemma ShownTurned(d: Deque, grows: bool)
    ensures Shown(Turn(d, grows)) == if grows then Reverse(Shown(d)) else Shown(d)
  {
    ReverseTwice(d.values);
  }

  lemma ShownPushed(d: Deque, v: int)
    ensures Shown(Push(d, v)) == [v] + Shown(d)
  {
    ReverseConcat(d.values, [v]);
    ReverseShort([v]);
  }

  lemma FirstShown(d: Deque)
    requires d.values != []
    ensures First(Shown(d)) == Some(if d.turned then d.values[|d.values| - 1] else d.values[0])
  {
    ReverseHead(d.values);
  }

  /** The state after a run of appends: capacity and size depend on their number, and each key shows its values. */
  lemma {:induction false} AppendsOrder(f: Fns, ops: seq<Op>)
    requires Lawful(f) && NoEnomem(f, ops) && Appends(ops)
    ensures AppendState(f, ops, After(f, ops))
  {
    if ops == [] {
      NoAppends(f);
    } else {
      var init := ops[..|ops| - 1];
      assert ops[|ops| - 1] in ops && forall op :: op in init ==> op in ops;
      AppendsOrder(f, init);
      OneMoreAppend(f, ops, After(f, init));
    }
  }

  ghost predicate AppendState(f: Fns, ops: seq<Op>, h: HState) {
    && StateOk(f, h.table, h.bits) && h.bits == BitsAfter(|ops|) && |Flatten(h.table)| == |ops|
    && forall k :: Shows(f, ops, h, k)
  }

  /** Iteration visits the values of k as the run left them. */
  ghost predicate Shows(f: Fns, ops: seq<Op>, h: HState, k: int) {
    ValuesFor(f, h.table, h.bits, k) == Shown(Values(f, GrowsAt, ops, k))
  }

  lemma NoAppends(f: Fns)
    requires Lawful(f)
    ensures AppendState(f, [], HState([], 0))
  {
  }

  lemma OneMoreAppend(f: Fns, ops: seq<Op>, h: HState)
    requires ops != [] && AppendState(f, ops[..|ops| - 1], h)
    requires var op := ops[|ops| - 1]; op.Ins? && op.s == APPEND && Fits(f, h, op)
    ensures AppendState(f, ops, Apply(f, h, ops[|ops| - 1]))
  {
    var init, op := ops[..|ops| - 1], ops[|ops| - 1];
    Snoc(ops);
    AppendedSize(f, init, h, op);
    forall k
      ensures Shows(f, ops, Apply(f, h, op), k)
    {
      assert Shows(f, init, h, k);
      StillShows(f, init, h, op, k);
    }
  }

  lemma AppendedSize(f: Fns, init: seq<Op>, h: HState, op: Op)
    requires StateOk(f, h.table, h.bits) && h.bits == BitsAfter(|init|) && |Flatten(h.table)| == |init|
    requires op.Ins? && op.s == APPEND && Insert(f, h.table, h.bits, op.key, op.value, APPEND).err != ENOMEM
    ensures var g := Apply(f, h, op);
      StateOk(f, g.table, g.bits) && g.bits == BitsAfter(|init| + 1) && |Flatten(g.table)| == |init| + 1
  {
    InsertErrors(f, h.table, h.bits, op.key, op.value, APPEND);
    InsertSize(f, h.table, h.bits, op.key, op.value, APPEND);
  }

  lemma StillShows(f: Fns, init: seq<Op>, h: HState, op: Op, k: int)
    requires StateOk(f, h.table, h.bits) && h.bits == BitsAfter(|init|) && |Flatten(h.table)| == |init|
    requires Shows(f, init, h, k) && op.Ins? && op.s == APPEND
    requires Insert(f, h.table, h.bits, op.key, op.value, APPEND).err != ENOMEM
    ensures Shows(f, init + [op], Apply(f, h, op), k)
  {
    AppendOrder(f, h, op, k);
    ShownNext(f, GrowsAt, init, op, k);
  }

  lemma ValuesNext(f: Fns, grows: Schedule, init: seq<Op>, op: Op, k: int)
    ensures var d := Turn(Values(f, grows, init, k), grows(|init|));
      Values(f, grows, init + [op], k) == if op.Ins? && f.eq(k, op.key) then Push(d, op.value) else d
  {
    assert (init + [op])[..|init|] == init;
  }

  lemma ShownNext(f: Fns, grows: Schedule, init: seq<Op>, op: Op, k: int)
    requires op.Ins?
    ensures var was := Shown(Values(f, grows, init, k));
      Shown(Values(f, grows, init + [op], k)) ==
        (if f.eq(k, op.key) then [op.value] else []) + if grows(|init|) then Reverse(was) else was
  {
    var d := Values(f, grows, init, k);
    ValuesNext(f, grows, init, op, k);
    ShownTurned(d, grows(|init|));
    ShownPushed(Turn(d, grows(|init|)), op.value);
  }

  /** One append, on the values of one key. */
  lemma AppendOrder(f: Fns, h: HState, op: Op, k: int)
    requires StateOk(f, h.table, h.bits) && op.Ins? && op.s == APPEND
    requires Insert(f, h.table, h.bits, op.key, op.value, APPEND).err != ENOMEM
    ensures var g, was := Apply(f, h, op), ValuesFor(f, h.table, h.bits, k);
      ValuesFor(f, g.table, g.bits, k) ==
        (if f.eq(k, op.key) then [op.value] else [])
        + if NeedsToGrow(|Flatten(h.table)|, h.bits) then Reverse(was) else was
  {
    InsertErrors(f, h.table, h.bits, op.key, op.value, APPEND);
    InsertValues(f, h.table, h.bits, op.key, op.value, APPEND, k);
  }

  // ----- what find returns -----

  /** Append j is the last one under a key equal to k. */
  ghost predicate IsLast(f: Fns, ops: seq<Op>, k: int, j: nat) {
    && j < |ops| && ops[j].Ins? && f.eq(k, ops[j].key)
    && forall i :: j < i < |ops| && ops[i].Ins? ==> !f.eq(k, ops[i].key)
  }

  /** Whether an odd number of the appends i, i + 1, .., n - 1 grow the table. */
  function Odd(grows: Schedule, i: nat, n: nat): bool
    requires i <= n
  {
    Growths(grows, i, n) % 2 == 1
  }

  lemma OddNext(grows: Schedule, i: nat, n: nat)
    requires i <= n
    ensures !Odd(grows, i, i) && Odd(grows, i, n + 1) == (Odd(grows, i, n) != grows(n))
  {
  }

  /** Appends of other keys change the values of k by turning them at growths only. */
  lemma {:induction false} ValuesSince(f: Fns, grows: Schedule, base: seq<Op>, more: seq<Op>, k: int)
    requires forall i :: 0 <= i < |more| && more[i].Ins? ==> !f.eq(k, more[i].key)
    ensures Values(f, grows, base + more, k) == Turn(Values(f, grows, base, k), Odd(grows, |base|, |base| + |more|))
  {
    OddNext(grows, |base|, |base|);
    if more == [] {
      assert base + more == base;
    } else {
      var n := |more| - 1;
      ValuesSince(f, grows, base, more[..n], k);
      OneMoreOther(f, grows, base, base + more[..n], more[n], k);
      assert base + more == base + more[..n] + [more[n]];
    }
  }

  lemma OneMoreOther(f: Fns, grows: Schedule, base: seq<Op>, init: seq<Op>, op: Op, k: int)
    requires |base| <= |init| && (op.Ins? ==> !f.eq(k, op.key))
    requires Values(f, grows, init, k) == Turn(Values(f, grows, base, k), Odd(grows, |base|, |init|))
    ensures Values(f, grows, init + [op], k) == Turn(Values(f, grows, base, k), Odd(grows, |base|, |init| + 1))
  {
    ValuesNext(f, grows, init, op, k);
    OddNext(grows, |base|, |init|);
  }

  /** The values of k at the end of a run: those before its last append, that append, and the growths since. */
  lemma ValuesAtEnd(f: Fns, grows: Schedule, ops: seq<Op>, k: int, j: nat)
    requires IsLast(f, ops, k, j)
    ensures var d := Push(Turn(Values(f, grows, ops[..j], k), grows(j)), ops[j].value);
      Values(f, grows, ops, k) == Turn(d, Odd(grows, j + 1, |ops|))
  {
    var first, rest := ops[..j + 1], ops[j + 1..];
    assert first == ops[..j] + [ops[j]];
    ValuesNext(f, grows, ops[..j], ops[j], k);
    ValuesSince(f, grows, first, rest, k);
    assert first + rest == ops;
  }

  /** A pushed value is visited first until the values are turned, or if it stands at their other end too. */
  lemma PushedFirstIff(d: Deque, v: int, turned: bool)
    ensures First(Shown(Turn(Push(d, v), turned))) == Some(v) <==> !turned || OtherEnd(d, v) == v
  {
    FirstShown(Turn(Push(d, v), turned));
  }

  /**
   * Over every run of APPEND, find returns the value appended last for k exactly when an even number of growths
   * followed that append, or the same value stood at the other end of the values of k.
   */
  lemma FindLastIff(f: Fns, ops: seq<Op>, k: int, j: nat)
    requires Lawful(f) && NoEnomem(f, ops) && Appends(ops) && IsLast(f, ops, k, j)
    ensures var h, d := After(f, ops), Values(f, GrowsAt, ops[..j], k);
      Lookup(f, h.table, h.bits, k) == Some(ops[j].value) <==>
        !Odd(GrowsAt, j + 1, |ops|) || OtherEnd(Turn(d, GrowsAt(j)), ops[j].value) == ops[j].value
  {
    var d := Turn(Values(f, GrowsAt, ops[..j], k), GrowsAt(j));
    ValuesAtEnd(f, GrowsAt, ops, k, j);
    FindIsFirst(f, ops, k);
    PushedFirstIff(d, ops[j].value, Odd(GrowsAt, j + 1, |ops|));
  }

  /** The value iteration would end with once v is pushed. */
  function OtherEnd(d: Deque, v: int): int {
    if d.values == [] then v else if d.turned then d.values[0] else d.values[|d.values| - 1]
  }

  /** Keys that hash and compare as themselves. */
  const PLAIN: Fns := Fns(x => if x < 0 then 0 else x, (a, b) => a == b)

  const FOUR: seq<Op> := [Ins(1, 10, APPEND), Ins(1, 20, APPEND), Ins(2, 0, APPEND), Ins(3, 0, APPEND)]

  lemma FewBits()
    ensures BitsAfter(1) == BitsAfter(2) == BitsAfter(3) == 2 && BitsAfter(4) == 3
    ensures GrowsAt(0) && !GrowsAt(1) && !GrowsAt(2) && GrowsAt(3)
  {
    assert Capacity(2) == 4;
  }

  /** Two appends of a key and two of others, with growths at the first and the fourth. */
  lemma TurnedAtFourth(f: Fns, grows: Schedule, a: Op, b: Op, c: Op, d: Op, k: int)
    requires a.Ins? && b.Ins? && c.Ins? && d.Ins?
    requires f.eq(k, a.key) && f.eq(k, b.key) && !f.eq(k, c.key) && !f.eq(k, d.key)
    requires grows(0) && !grows(1) && !grows(2) && grows(3)
    ensures Values(f, grows, [a, b, c, d], k) == Deque([a.value, b.value], false)
  {
    assert [] + [a] == [a] && [a] + [b] == [a, b] && [a, b] + [c] == [a, b, c] && [a, b, c] + [d] == [a, b, c, d];
    ValuesNext(f, grows, [], a, k);
    ValuesNext(f, grows, [a], b, k);
    ValuesNext(f, grows, [a, b], c, k);
    ValuesNext(f, grows, [a, b, c], d, k);
  }

  lemma FewRoom(f: Fns, init: seq<Op>, h: HState, op: Op)
    requires AppendState(f, init, h) && |init| <= 3
    ensures Fits(f, h, op)
  {
    FewBits();
    if op.Ins? {
      InsertErrors(f, h.table, h.bits, op.key, op.value, op.s);
    }
  }

  /** The first appends never run out of buckets. */
  lemma {:induction false} FewFit(f: Fns, ops: seq<Op>)
    requires Lawful(f) && Appends(ops) && |ops| <= 4
    ensures NoEnomem(f, ops)
  {
    if ops != [] {
      var init := ops[..|ops| - 1];
      assert forall op :: op in init ==> op in ops;
      FewFit(f, init);
      AppendsOrder(f, init);
      FewRoom(f, init, After(f, init), ops[|ops| - 1]);
    }
  }

  /** The value appended last for key 1 is 20; after the fourth append has grown the table, find returns 10. */
  lemma GrowthHidesLast(f: Fns, ops: seq<Op>)
    requires f == PLAIN && ops == FOUR
    ensures Lawful(f) && NoEnomem(f, ops) && Appends(ops) && IsLast(f, ops, 1, 1) && ops[1].value == 20
    ensures var h := After(f, ops); Lookup(f, h.table, h.bits, 1) == Some(10)
  {
    FewFit(f, ops);
    FewBits();
    TurnedAtFourth(f, GrowsAt, FOUR[0], FOUR[1], FOUR[2], FOUR[3], 1);
    FindIsFirst(f, ops, 1);
  }

  /** Over every run of APPEND find returns the first value shown. */
  lemma FindIsFirst(f: Fns, ops: seq<Op>, k: int)
    requires Lawful(f) && NoEnomem(f, ops) && Appends(ops)
    ensures var h := After(f, ops); Lookup(f, h.table, h.bits, k) == First(Shown(Values(f, GrowsAt, ops, k)))
  {
    var h := After(f, ops);
    AppendsOrder(f, ops);
    assert Shows(f, ops, h, k);
    LookupIsFirst(f, h.table, h.bits, k);
  }
}
