// libbpf/src/hashmap.h: every run of all five operations, as a caller sees it.
module HashRuns {
  import opened Prelude
  import opened Words
  import opened HashSpec
  import opened HashLaws

  /** What a caller can see of a map: its size, its capacity, and for every key the values iteration visits, in order. */
  datatype View = View(size: nat, bits: nat, lists: int -> seq<int>)

  const EMPTY: View := View(0, 0, _ => [])

  /** The error an operation returns. */
  function Answer(v: View, op: Op): Err {
    match op
    case Del(_) => OK
    case Ins(key, _, s) =>
      if s != APPEND && v.lists(key) != [] then if s == ADD then EEXIST else OK
      else if s == UPDATE then ENOENT
      else if NeedsToGrow(v.size, v.bits) && NewBits(v.bits) >= FAIL_BITS then ENOMEM
      else OK
  }

  /** What an operation does to a view. A growth turns every list round. */
  function Step(f: Fns, v: View, op: Op): View {
    match op
    case Del(key) =>
      View(if v.lists(key) != [] && v.size > 0 then v.size - 1 else v.size, v.bits,
           k => if f.eq(k, key) && v.lists(k) != [] then v.lists(k)[1..] else v.lists(k))
    case Ins(key, value, s) =>
      if Answer(v, op) != OK then v
      else if s != APPEND && v.lists(key) != [] then
        v.(lists := k => if f.eq(k, key) && v.lists(k) != [] then [value] + v.lists(k)[1..] else v.lists(k))
      else
        var grows := NeedsToGrow(v.size, v.bits);
        View(v.size + 1, if grows then NewBits(v.bits) else v.bits,
             k => (if f.eq(k, key) then [value] else []) + if grows then Reverse(v.lists(k)) else v.lists(k))
  }

  function Run(f: Fns, ops: seq<Op>): View {
    if ops == [] then EMPTY else Step(f, Run(f, ops[..|ops| - 1]), ops[|ops| - 1])
  }

  /** The map looks like the view. */
  ghost predicate LooksLike(f: Fns, h: HState, v: View) {
    && StateOk(f, h.table, h.bits) && h.bits == v.bits && |Flatten(h.table)| == v.size
    && forall k :: Visits(f, h, v, k)
  }

  ghost predicate Visits(f: Fns, h: HState, v: View, k: int) { ValuesFor(f, h.table, h.bits, k) == v.lists(k) }

  // ----- how many entries -----

  lemma RoomSize(f: Fns, t: Table, bits: nat)
    requires StateOk(f, t, bits) && (NeedsToGrow(|Flatten(t)|, bits) ==> NewBits(bits) < FAIL_BITS)
    ensures |Flatten(Room(f, t, bits).0)| == |Flatten(t)|
  {
    if NeedsToGrow(|Flatten(t)|, bits) {
      GrowthKeepsPairs(f, t, NewBits(bits));
    }
  }

  lemma PushSize(f: Fns, t: Table, bits: nat, p: Pair)
    requires StateOk(f, t, bits) && bits > 0
    ensures |Flatten(Pushed(f, t, bits, p))| == |Flatten(t)| + 1
  {
    HomeInRange(f, t, bits, p.key);
    PushAdds(t, Bucket(f, p.key, bits), p);
  }

  /** A successful insertion: validity, number of entries and capacity. */
  lemma InsertSize(f: Fns, t: Table, bits: nat, key: int, value: int, s: Strategy)
    requires StateOk(f, t, bits) && Insert(f, t, bits, key, value, s).err == OK
    ensures var o, there := Insert(f, t, bits, key, value, s), s != APPEND && Present(f, t, bits, key);
      && StateOk(f, o.table, o.bits) && |Flatten(o.table)| == (if there then |Flatten(t)| else |Flatten(t)| + 1)
      && o.bits == if !there && NeedsToGrow(|Flatten(t)|, bits) then NewBits(bits) else bits
  {
    InsertValues(f, t, bits, key, value, s, key);
    InsertIs(f, t, bits, key, value, s);
    if s != APPEND && Present(f, t, bits, key) {
      ReplacedSize(f, t, bits, key, value);
    } else {
      RoomValues(f, t, bits, key);
      RoomSize(f, t, bits);
      PushSize(f, Room(f, t, bits).0, Room(f, t, bits).1, Pair(key, value));
    }
  }

  lemma ReplacedSize(f: Fns, t: Table, bits: nat, key: int, value: int)
    ensures |Flatten(Replaced(f, t, bits, key, value))| == |Flatten(t)|
  {
    var m, h := FirstMatch(f, Home(f, t, bits, key), key), Bucket(f, key, bits);
    if m.Some? {
      SameSizes(t, h, m.value, Pair(key, value));
    }
  }

  lemma DeleteSize(f: Fns, t: Table, bits: nat, key: int)
    requires StateOk(f, t, bits)
    ensures StateOk(f, Delete(f, t, bits, key), bits)
    ensures |Flatten(Delete(f, t, bits, key))| == if Present(f, t, bits, key) then |Flatten(t)| - 1 else |Flatten(t)|
  {
    var m, h := FirstMatch(f, Home(f, t, bits, key), key), Bucket(f, key, bits);
    FirstOfMatches(f, Home(f, t, bits, key), key);
    if m.Some? {
      DropOk(f, t, bits, h, m.value);
    }
  }

  // ----- every run -----

  /** One insertion: the answer, and the view it leaves. */
  lemma InsertLooks(f: Fns, h: HState, v: View, op: Op)
    requires LooksLike(f, h, v) && op.Ins?
    ensures Insert(f, h.table, h.bits, op.key, op.value, op.s).err == Answer(v, op)
    ensures LooksLike(f, Apply(f, h, op), Step(f, v, op))
  {
    var o := Insert(f, h.table, h.bits, op.key, op.value, op.s);
    assert Visits(f, h, v, op.key);
    InsertErrors(f, h.table, h.bits, op.key, op.value, op.s);
    assert o.err == Answer(v, op);
    if o.err == OK {
      InsertSize(f, h.table, h.bits, op.key, op.value, op.s);
      forall k
        ensures Visits(f, Apply(f, h, op), Step(f, v, op), k)
      {
        assert Visits(f, h, v, k);
        InsertValues(f, h.table, h.bits, op.key, op.value, op.s, k);
      }
    } else {
      assert Apply(f, h, op) == h;
    }
  }

  lemma DeleteLooks(f: Fns, h: HState, v: View, key: int)
    requires LooksLike(f, h, v)
    ensures LooksLike(f, Apply(f, h, Del(key)), Step(f, v, Del(key)))
  {
    assert Visits(f, h, v, key);
    DeleteSize(f, h.table, h.bits, key);
    forall k
      ensures Visits(f, Apply(f, h, Del(key)), Step(f, v, Del(key)), k)
    {
      assert Visits(f, h, v, k);
      DeletedValues(f, h.table, h.bits, key, k);
    }
  }

  lemma EmptyLooks(f: Fns)
    requires Lawful(f)
    ensures LooksLike(f, HState([], 0), EMPTY)
  {
  }

  /** After every run of insertions with any strategies and deletions, failed ones included, the map is the view. */
  lemma {:induction false} EveryRun(f: Fns, ops: seq<Op>)
    requires Lawful(f)
    ensures LooksLike(f, After(f, ops), Run(f, ops))
  {
    if ops == [] {
      EmptyLooks(f);
    } else {
      var init, op := ops[..|ops| - 1], ops[|ops| - 1];
      EveryRun(f, init);
      match op
      case Del(key) => DeleteLooks(f, After(f, init), Run(f, init), key);
      case Ins(_, _, _) => InsertLooks(f, After(f, init), Run(f, init), op);
    }
  }

  /** So after every run the answers are those of the view. */
  lemma Answers(f: Fns, ops: seq<Op>, op: Op, k: int)
    requires Lawful(f)
    ensures var h, v := After(f, ops), Run(f, ops);
      && Lookup(f, h.table, h.bits, k) == First(v.lists(k))
      && (op.Ins? ==> Insert(f, h.table, h.bits, op.key, op.value, op.s).err == Answer(v, op))
  {
    var h, v := After(f, ops), Run(f, ops);
    EveryRun(f, ops);
    assert Visits(f, h, v, k);
    LookupIsFirst(f, h.table, h.bits, k);
    if op.Ins? {
      InsertLooks(f, h, v, op);
    }
  }

  // ----- how full the table gets -----

  /** A table of 4 * m buckets grows when an insertion finds 3 * m entries or more, an empty one always. */
  lemma GrowsIff(size: nat, bits: nat)
    ensures NeedsToGrow(size, 0)
    ensures bits >= 2 ==> (NeedsToGrow(size, bits) <==> size >= 3 * Pow2(bits - 2))
    ensures bits >= 2 ==> Capacity(bits) == 4 * Pow2(bits - 2)
  {
    if bits >= 2 {
      assert Pow2(2) == 4;
      Pow2Add(2, bits - 2);
      ThreeQuarters(size, Pow2(bits - 2));
    }
  }

  lemma ThreeQuarters(size: nat, m: nat)
    ensures (size + 1) * 4 / 3 > 4 * m <==> size >= 3 * m
  {
  }

  /** The entries times 4 / 3 never exceed the number of buckets, of which there are none, 4, 8, 16, ... */
  ghost predicate Loaded(v: View) {
    if v.bits == 0 then v.size == 0 else v.bits >= 2 && v.size * 4 / 3 <= Pow2(v.bits)
  }

  lemma StepLoaded(f: Fns, v: View, op: Op)
    requires Loaded(v)
    ensures Loaded(Step(f, v, op))
  {
    if op.Ins? && Answer(v, op) == OK && (op.s == APPEND || v.lists(op.key) == []) {
      if NeedsToGrow(v.size, v.bits) && v.bits > 0 {
        RoomDoubles(v.size, v.bits);
      }
    }
  }

  /** Twice the buckets have room for one more. */
  lemma RoomDoubles(size: nat, bits: nat)
    requires bits >= 2 && size * 4 / 3 <= Pow2(bits)
    ensures (size + 1) * 4 / 3 <= Pow2(bits + 1)
  {
    assert Pow2(2) == 4;
    Pow2Add(2, bits - 2);
    assert Pow2(bits) >= 4;
  }

  lemma {:induction false} RunLoaded(f: Fns, ops: seq<Op>)
    ensures Loaded(Run(f, ops))
  {
    if ops != [] {
      RunLoaded(f, ops[..|ops| - 1]);
      StepLoaded(f, Run(f, ops[..|ops| - 1]), ops[|ops| - 1]);
    }
  }

  /** After every run the table has at most three entries for every four buckets. */
  lemma NeverOverloaded(f: Fns, ops: seq<Op>)
    requires Lawful(f)
    ensures var h := After(f, ops);
      && |Flatten(h.table)| * 4 / 3 <= |h.table|
      && |h.table| == (if h.bits == 0 then 0 else Pow2(h.bits)) && h.bits != 1
  {
    EveryRun(f, ops);
    RunLoaded(f, ops);
  }
}
