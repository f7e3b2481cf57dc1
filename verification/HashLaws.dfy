// libbpf/src/hashmap.h: the promises of the hash map, as laws of its operations over every run.
module HashLaws {
  import opened Prelude
  import opened Words
  import opened HashSpec

  ghost predicate StateOk(f: Fns, t: Table, bits: nat) {
    Lawful(f) && TableOk(f, t, bits) && (bits == 0 || 2 <= bits < FAIL_BITS)
  }

  /** At most one entry for each class of equal keys. */
  ghost predicate Unique(f: Fns, t: Table, bits: nat) { forall k :: |ValuesFor(f, t, bits, k)| <= 1 }

  lemma HomeInRange(f: Fns, t: Table, bits: nat, key: int)
    requires StateOk(f, t, bits) && bits > 0
    ensures Bucket(f, key, bits) < |t|
    ensures Home(f, t, bits, key) == t[Bucket(f, key, bits)]
  {
    BucketInRange(f, key, bits);
  }

  lemma LookupIsFirst(f: Fns, t: Table, bits: nat, key: int)
    ensures Lookup(f, t, bits, key) == First(ValuesFor(f, t, bits, key))
  {
    FirstOfMatches(f, Home(f, t, bits, key), key);
  }

  // ----- one operation -----

  /** A new entry becomes the first value of its key and of no other. */
  lemma PushedValues(f: Fns, t: Table, bits: nat, p: Pair, key: int)
    requires StateOk(f, t, bits) && bits > 0
    ensures ValuesFor(f, Pushed(f, t, bits, p), bits, key)
         == (if f.eq(p.key, key) then [p.value] else []) + ValuesFor(f, t, bits, key)
  {
    HomeInRange(f, t, bits, p.key);
    HomeInRange(f, t, bits, key);
    var h := Bucket(f, p.key, bits);
    if Bucket(f, key, bits) == h {
      MatchesConcat(f, [p], t[h], key);
      MatchesOne(f, p, key);
    } else {
      assert !f.eq(p.key, key);
    }
  }

  lemma NoMatches(f: Fns, c: Chain, key: int)
    requires forall j :: 0 <= j < |c| ==> !f.eq(c[j].key, key)
    ensures Matches(f, c, key) == []
  {
    FirstOfMatches(f, c, key);
  }

  /** A chain around its first match. */
  lemma SplitChain(f: Fns, c: Chain, i: nat, key: int)
    requires i < |c|
    ensures c == c[..i] + [c[i]] + c[i + 1..]
    ensures Matches(f, c, key) == Matches(f, c[..i], key) + Matches(f, [c[i]], key) + Matches(f, c[i + 1..], key)
  {
    assert c == (c[..i] + [c[i]]) + c[i + 1..];
    MatchesConcat(f, c[..i] + [c[i]], c[i + 1..], key);
    MatchesConcat(f, c[..i], [c[i]], key);
  }

  /** Replacing or dropping the first match of `key` changes only the first value of keys equal to it. */
  lemma FirstMatchValues(f: Fns, c: Chain, i: nat, key: int, value: int, k: int)
    requires Lawful(f) && FirstMatch(f, c, key) == Some(i)
    ensures f.eq(k, key) ==>
      && Matches(f, c, k) != []
      && Matches(f, c[i := Pair(key, value)], k) == [value] + Matches(f, c, k)[1..]
      && Matches(f, Drop(c, i), k) == Matches(f, c, k)[1..]
    ensures !f.eq(k, key) ==>
      && Matches(f, c[i := Pair(key, value)], k) == Matches(f, c, k)
      && Matches(f, Drop(c, i), k) == Matches(f, c, k)
  {
    BeforeFirst(f, c, i, key, k);
    ChainEdit(f, c, i, Pair(key, value), k);
  }

  /** The entries before the first match of `key` match no key equal to it. */
  lemma BeforeFirst(f: Fns, c: Chain, i: nat, key: int, k: int)
    requires Lawful(f) && FirstMatch(f, c, key) == Some(i)
    ensures f.eq(c[i].key, k) <==> f.eq(k, key)
    ensures f.eq(key, k) <==> f.eq(k, key)
    ensures f.eq(k, key) ==> Matches(f, c[..i], k) == []
  {
    SameClass(f, c[i].key, key, k);
    if f.eq(k, key) {
      forall j | 0 <= j < |c[..i]|
        ensures !f.eq(c[..i][j].key, k)
      {
        SameClass(f, c[j].key, key, k);
      }
      NoMatches(f, c[..i], k);
    }
  }

  /** Replacing or dropping entry i, when its key and the new one match k alike. */
  lemma ChainEdit(f: Fns, c: Chain, i: nat, p: Pair, k: int)
    requires i < |c| && (f.eq(c[i].key, k) <==> f.eq(p.key, k))
    requires f.eq(p.key, k) ==> Matches(f, c[..i], k) == []
    ensures f.eq(p.key, k) ==>
      && Matches(f, c, k) != []
      && Matches(f, c[i := p], k) == [p.value] + Matches(f, c, k)[1..]
      && Matches(f, Drop(c, i), k) == Matches(f, c, k)[1..]
    ensures !f.eq(p.key, k) ==>
      Matches(f, c[i := p], k) == Matches(f, c, k) == Matches(f, Drop(c, i), k)
  {
    var before, after := Matches(f, c[..i], k), Matches(f, c[i + 1..], k);
    EntryOf(f, c, i, k);
    assert c[i := p][..i] == c[..i] && c[i := p][i + 1..] == c[i + 1..];
    EntryOf(f, c[i := p], i, k);
    MatchesConcat(f, c[..i], c[i + 1..], k);
    assert before + [] + after == before + after;
  }

  lemma EntryOf(f: Fns, c: Chain, i: nat, k: int)
    requires i < |c|
    ensures var own := if f.eq(c[i].key, k) then [c[i].value] else [];
      Matches(f, c, k) == Matches(f, c[..i], k) + own + Matches(f, c[i + 1..], k)
  {
    SplitChain(f, c, i, k);
    MatchesOne(f, c[i], k);
  }

  lemma SameClass(f: Fns, a: int, key: int, k: int)
    requires Lawful(f)
    ensures f.eq(a, key) ==> (f.eq(a, k) <==> f.eq(k, key))
    ensures f.eq(k, key) ==> (f.eq(a, k) <==> f.eq(a, key))
    ensures f.eq(k, key) <==> f.eq(key, k)
  {
  }

  /** SET and UPDATE of a present key replace its first value. */
  lemma ReplacedValues(f: Fns, t: Table, bits: nat, key: int, value: int, k: int)
    requires StateOk(f, t, bits) && ValuesFor(f, t, bits, key) != []
    ensures ValuesFor(f, Replaced(f, t, bits, key, value), bits, k)
         == if f.eq(k, key) then [value] + ValuesFor(f, t, bits, key)[1..] else ValuesFor(f, t, bits, k)
    ensures f.eq(k, key) ==> ValuesFor(f, t, bits, k) == ValuesFor(f, t, bits, key)
    ensures TableOk(f, Replaced(f, t, bits, key, value), bits)
  {
    FirstOfMatches(f, Home(f, t, bits, key), key);
    EqualKeysEqualValues(f, t, bits, k, key);
    var m, h := FirstMatch(f, Home(f, t, bits, key), key), Bucket(f, key, bits);
    if Bucket(f, k, bits) == h {
      FirstMatchValues(f, t[h], m.value, key, value, k);
    }
  }

  /** hashmap_delete removes the first value of the key. */
  lemma DeletedValues(f: Fns, t: Table, bits: nat, key: int, k: int)
    requires StateOk(f, t, bits)
    ensures ValuesFor(f, Delete(f, t, bits, key), bits, k)
         == if f.eq(k, key) && ValuesFor(f, t, bits, k) != [] then ValuesFor(f, t, bits, k)[1..]
            else ValuesFor(f, t, bits, k)
  {
    var m, h := FirstMatch(f, Home(f, t, bits, key), key), Bucket(f, key, bits);
    FirstOfMatches(f, Home(f, t, bits, key), key);
    if m.Some? {
      if Bucket(f, k, bits) == h {
        FirstMatchValues(f, t[h], m.value, key, 0, k);
      }
    } else if f.eq(k, key) {
      assert f.hash(k) == f.hash(key);
      forall j | 0 <= j < |Home(f, t, bits, k)|
        ensures !f.eq(Home(f, t, bits, k)[j].key, k)
      {
        SameClass(f, Home(f, t, bits, k)[j].key, key, k);
      }
      NoMatches(f, Home(f, t, bits, k), k);
    }
  }

  lemma DeleteOk(f: Fns, t: Table, bits: nat, key: int)
    requires StateOk(f, t, bits)
    ensures StateOk(f, Delete(f, t, bits, key), bits)
  {
  }

  /** The table after the growth an insertion may need. */
  function Room(f: Fns, t: Table, bits: nat): (Table, nat) {
    if NeedsToGrow(|Flatten(t)|, bits) then (Grown(f, t, NewBits(bits)), NewBits(bits)) else (t, bits)
  }

  /** Growth may reverse a key's values and changes nothing else. */
  lemma RoomValues(f: Fns, t: Table, bits: nat, k: int)
    requires StateOk(f, t, bits) && (NeedsToGrow(|Flatten(t)|, bits) ==> NewBits(bits) < FAIL_BITS)
    ensures var (u, b) := Room(f, t, bits);
      && StateOk(f, u, b) && b > 0
      && ValuesFor(f, u, b, k) ==
           (if NeedsToGrow(|Flatten(t)|, bits) then Reverse(ValuesFor(f, t, bits, k)) else ValuesFor(f, t, bits, k))
      && Pairs(u) == Pairs(t)
  {
    if NeedsToGrow(|Flatten(t)|, bits) {
      GrownOk(f, t, NewBits(bits));
      GrowthKeepsPairs(f, t, NewBits(bits));
      if bits > 0 {
        GrowthReversesKey(f, t, bits, k);
      } else {
        assert t == [];
        assert ValuesFor(f, t, bits, k) == [];
        BucketInRange(f, k, 2);
        assert Grown(f, t, 2)[Bucket(f, k, 2)] == [];
      }
    }
  }

  // ----- insertion -----

  predicate Present(f: Fns, t: Table, bits: nat, key: int) { ValuesFor(f, t, bits, key) != [] }

  /** What the four strategies promise (libbpf/src/hashmap.h:94-107). */
  lemma InsertErrors(f: Fns, t: Table, bits: nat, key: int, value: int, s: Strategy)
    requires StateOk(f, t, bits)
    ensures var o := Insert(f, t, bits, key, value, s);
      && (o.err == EEXIST <==> s == ADD && Present(f, t, bits, key))
      && (o.err == ENOENT <==> s == UPDATE && !Present(f, t, bits, key))
      && (o.err == ENOMEM <==>
            && (s == APPEND || (s != UPDATE && !Present(f, t, bits, key)))
            && NeedsToGrow(|Flatten(t)|, bits) && NewBits(bits) >= FAIL_BITS)
      && (o.err != OK ==> o.table == t && o.bits == bits)
      // a replaced or refused entry is reported
      && (s != APPEND && Present(f, t, bits, key) ==> f.eq(o.oldKey, key) && o.oldValue == ValuesFor(f, t, bits, key)[0])
  {
    FirstOfMatches(f, Home(f, t, bits, key), key);
  }

  /** The values of key k after a successful insertion. */
  function ValuesAfter(f: Fns, t: Table, bits: nat, key: int, value: int, s: Strategy, k: int): seq<int> {
    var was := ValuesFor(f, t, bits, k);
    if s != APPEND && Present(f, t, bits, key) then
      if f.eq(k, key) && was != [] then [value] + was[1..] else was
    else
      (if f.eq(k, key) then [value] else []) + (if NeedsToGrow(|Flatten(t)|, bits) then Reverse(was) else was)
  }

  /** A successful insertion, on the values of every key. */
  lemma InsertValues(f: Fns, t: Table, bits: nat, key: int, value: int, s: Strategy, k: int)
    requires StateOk(f, t, bits) && Insert(f, t, bits, key, value, s).err == OK
    ensures var o := Insert(f, t, bits, key, value, s);
      StateOk(f, o.table, o.bits) && ValuesFor(f, o.table, o.bits, k) == ValuesAfter(f, t, bits, key, value, s, k)
  {
    InsertIs(f, t, bits, key, value, s);
    if s != APPEND && Present(f, t, bits, key) {
      ReplacedValues(f, t, bits, key, value, k);
    } else {
      InsertNewValues(f, t, bits, key, value, k);
    }
  }

  lemma InsertIs(f: Fns, t: Table, bits: nat, key: int, value: int, s: Strategy)
    requires Insert(f, t, bits, key, value, s).err == OK
    ensures var o := Insert(f, t, bits, key, value, s);
      if s != APPEND && Present(f, t, bits, key) then o.table == Replaced(f, t, bits, key, value) && o.bits == bits
      else
        && (NeedsToGrow(|Flatten(t)|, bits) ==> NewBits(bits) < FAIL_BITS)
        && o.bits == Room(f, t, bits).1 && o.table == Pushed(f, Room(f, t, bits).0, o.bits, Pair(key, value))
  {
    FirstOfMatches(f, Home(f, t, bits, key), key);
  }

  lemma InsertNewValues(f: Fns, t: Table, bits: nat, key: int, value: int, k: int)
    requires StateOk(f, t, bits) && (NeedsToGrow(|Flatten(t)|, bits) ==> NewBits(bits) < FAIL_BITS)
    ensures var (u, b) := Room(f, t, bits);
      && StateOk(f, Pushed(f, u, b, Pair(key, value)), b)
      && ValuesFor(f, Pushed(f, u, b, Pair(key, value)), b, k) == ValuesAfter(f, t, bits, key, value, APPEND, k)
  {
    var (u, b) := Room(f, t, bits);
    RoomValues(f, t, bits, k);
    PushedValues(f, u, b, Pair(key, value), k);
    PushedOk(f, u, b, Pair(key, value));
    SameClass(f, k, key, k);
  }

  /** Find right after any successful insertion returns the inserted value. */
  lemma FindAfterInsert(f: Fns, t: Table, bits: nat, key: int, value: int, s: Strategy)
    requires StateOk(f, t, bits) && Insert(f, t, bits, key, value, s).err == OK
    ensures Lookup(f, Insert(f, t, bits, key, value, s).table, Insert(f, t, bits, key, value, s).bits, key) == Some(value)
  {
    var o := Insert(f, t, bits, key, value, s);
    InsertValues(f, t, bits, key, value, s, key);
    LookupIsFirst(f, o.table, o.bits, key);
  }

  // ----- runs -----

  datatype Op = Ins(key: int, value: int, s: Strategy) | Del(key: int)

  datatype HState = HState(table: Table, bits: nat)

  function Apply(f: Fns, h: HState, op: Op): HState {
    match op
    case Ins(k, v, s) => var o := Insert(f, h.table, h.bits, k, v, s); HState(o.table, o.bits)
    case Del(k) => HState(Delete(f, h.table, h.bits, k), h.bits)
  }

  /** The map after a run of operations, from hashmap__init. */
  function After(f: Fns, ops: seq<Op>): HState {
    if ops == [] then HState([], 0) else Apply(f, After(f, ops[..|ops| - 1]), ops[|ops| - 1])
  }

  /** There is memory for the operation. */
  predicate Fits(f: Fns, h: HState, op: Op) {
    op.Ins? ==> Insert(f, h.table, h.bits, op.key, op.value, op.s).err != ENOMEM
  }

  /** Memory never ran out during the run. */
  ghost predicate NoEnomem(f: Fns, ops: seq<Op>) {
    ops == [] ||
    var init := ops[..|ops| - 1];
    NoEnomem(f, init) && Fits(f, After(f, init), ops[|ops| - 1])
  }

  /** What one operation on a plain map does to the value of key k. */
  function StepValue(f: Fns, op: Op, k: int, was: Option<int>): Option<int> {
    match op
    case Del(key) => if f.eq(k, key) then None else was
    case Ins(key, value, s) =>
      if !f.eq(k, key) then was
      else
        match s
        case ADD => if was.Some? then was else Some(value)
        case UPDATE => if was.Some? then Some(value) else None
        case _ => Some(value)
  }

  /** A plain map driven by the same operations: the value key k has after a run without APPEND. */
  function MapAfter(f: Fns, ops: seq<Op>, k: int): Option<int> {
    if ops == [] then None else StepValue(f, ops[|ops| - 1], k, MapAfter(f, ops[..|ops| - 1], k))
  }

  ghost predicate Without(ops: seq<Op>, s: Strategy) { forall op :: op in ops && op.Ins? ==> op.s != s }

  /** Under ADD, SET, UPDATE and delete the hash map is a plain map: one entry per key class, with that map's value. */
  lemma {:induction false} RefinesMap(f: Fns, ops: seq<Op>)
    requires Lawful(f) && NoEnomem(f, ops) && Without(ops, APPEND)
    ensures var h := After(f, ops);
      && StateOk(f, h.table, h.bits) && Unique(f, h.table, h.bits)
      && forall k :: Lookup(f, h.table, h.bits, k) == MapAfter(f, ops, k)
  {
    if ops == [] {
      assert forall k :: ValuesFor(f, [], 0, k) == [];
    } else {
      var init, op := ops[..|ops| - 1], ops[|ops| - 1];
      RefinesMap(f, init);
      assert ops[..|ops| - 1] == init && op in ops;
      var h := After(f, init);
      StepRefines(f, h, op);
      forall k
        ensures var g := After(f, ops);
          |ValuesFor(f, g.table, g.bits, k)| <= 1 && Lookup(f, g.table, g.bits, k) == MapAfter(f, ops, k)
      {
        StepRefinesKey(f, h, op, k);
      }
    }
  }

  lemma StepRefines(f: Fns, h: HState, op: Op)
    requires StateOk(f, h.table, h.bits)
    requires Fits(f, h, op)
    ensures StateOk(f, Apply(f, h, op).table, Apply(f, h, op).bits)
  {
    match op
    case Del(key) => DeleteOk(f, h.table, h.bits, key);
    case Ins(key, value, s) =>
      InsertErrors(f, h.table, h.bits, key, value, s);
      if Insert(f, h.table, h.bits, key, value, s).err == OK {
        InsertValues(f, h.table, h.bits, key, value, s, key);
      }
  }

  lemma StepRefinesKey(f: Fns, h: HState, op: Op, k: int)
    requires StateOk(f, h.table, h.bits) && Unique(f, h.table, h.bits)
    requires op.Ins? ==> op.s != APPEND && Insert(f, h.table, h.bits, op.key, op.value, op.s).err != ENOMEM
    ensures var g := Apply(f, h, op);
      && |ValuesFor(f, g.table, g.bits, k)| <= 1
      && Lookup(f, g.table, g.bits, k) == StepValue(f, op, k, Lookup(f, h.table, h.bits, k))
  {
    match op
    case Del(key) => DeleteRefines(f, h, key, k);
    case Ins(key, value, s) => InsertRefines(f, h, key, value, s, k);
  }

  lemma DeleteRefines(f: Fns, h: HState, key: int, k: int)
    requires StateOk(f, h.table, h.bits) && Unique(f, h.table, h.bits)
    ensures var op := Del(key);
      var g := Apply(f, h, op);
      && |ValuesFor(f, g.table, g.bits, k)| <= 1
      && Lookup(f, g.table, g.bits, k) == StepValue(f, op, k, Lookup(f, h.table, h.bits, k))
  {
    var g := Apply(f, h, Del(key));
    LookupIsFirst(f, h.table, h.bits, k);
    LookupIsFirst(f, g.table, g.bits, k);
    assert |ValuesFor(f, h.table, h.bits, k)| <= 1;
    DeletedValues(f, h.table, h.bits, key, k);
  }

  lemma InsertRefines(f: Fns, h: HState, key: int, value: int, s: Strategy, k: int)
    requires StateOk(f, h.table, h.bits) && Unique(f, h.table, h.bits)
    requires s != APPEND && Insert(f, h.table, h.bits, key, value, s).err != ENOMEM
    ensures var op := Ins(key, value, s);
      var g := Apply(f, h, op);
      && |ValuesFor(f, g.table, g.bits, k)| <= 1
      && Lookup(f, g.table, g.bits, k) == StepValue(f, op, k, Lookup(f, h.table, h.bits, k))
  {
    var g := Apply(f, h, Ins(key, value, s));
    LookupIsFirst(f, h.table, h.bits, k);
    LookupIsFirst(f, g.table, g.bits, k);
    assert |ValuesFor(f, h.table, h.bits, k)| <= 1;
    InsertErrors(f, h.table, h.bits, key, value, s);
    if Insert(f, h.table, h.bits, key, value, s).err == OK {
      InsertValues(f, h.table, h.bits, key, value, s, k);
      AcceptedValue(f, h.table, h.bits, key, value, s, k);
    } else {
      RefusedValue(f, h.table, h.bits, key, value, s, k);
    }
  }

  function First(values: seq<int>): Option<int> { if values == [] then None else Some(values[0]) }

  /** An accepted insertion does to the only value of k what a plain map does. */
  lemma AcceptedValue(f: Fns, t: Table, bits: nat, key: int, value: int, s: Strategy, k: int)
    requires Lawful(f) && s != APPEND && |ValuesFor(f, t, bits, k)| <= 1
    requires if Present(f, t, bits, key) then s != ADD else s != UPDATE
    ensures var now := ValuesAfter(f, t, bits, key, value, s, k);
      |now| <= 1 && First(now) == StepValue(f, Ins(key, value, s), k, First(ValuesFor(f, t, bits, k)))
  {
    var was, now := ValuesFor(f, t, bits, k), ValuesAfter(f, t, bits, key, value, s, k);
    EqualKeysEqualValues(f, t, bits, k, key);
    ReverseShort(was);
    if f.eq(k, key) {
      assert was == [] || was[1..] == [];
      assert now == [value];
    } else {
      assert now == was;
    }
  }

  /** A refused insertion would not change a plain map either. */
  lemma RefusedValue(f: Fns, t: Table, bits: nat, key: int, value: int, s: Strategy, k: int)
    requires Lawful(f)
    requires (s == ADD && Present(f, t, bits, key)) || (s == UPDATE && !Present(f, t, bits, key))
    ensures StepValue(f, Ins(key, value, s), k, First(ValuesFor(f, t, bits, k))) == First(ValuesFor(f, t, bits, k))
  {
    EqualKeysEqualValues(f, t, bits, k, key);
  }

  /** Equal keys see the same values. */
  lemma EqualKeysEqualValues(f: Fns, t: Table, bits: nat, a: int, b: int)
    requires Lawful(f)
    ensures f.eq(a, b) ==> ValuesFor(f, t, bits, a) == ValuesFor(f, t, bits, b)
  {
    if f.eq(a, b) {
      assert f.hash(a) == f.hash(b);
      EqualMatches(f, Home(f, t, bits, a), a, b);
    }
  }

  lemma {:induction false} EqualMatches(f: Fns, c: Chain, a: int, b: int)
    requires Lawful(f) && f.eq(a, b)
    ensures Matches(f, c, a) == Matches(f, c, b)
  {
    if c != [] {
      EqualMatches(f, c[1..], a, b);
    }
  }

  /** A run of APPEND insertions. */
  ghost predicate Appends(ops: seq<Op>) { forall op :: op in ops ==> op.Ins? && op.s == APPEND }

  /** The values appended so far under keys equal to k. */
  function Appended(f: Fns, ops: seq<Op>, k: int): multiset<int> {
    if ops == [] then multiset{}
    else
      var op := ops[|ops| - 1];
      Appended(f, ops[..|ops| - 1], k) + if op.Ins? && f.eq(k, op.key) then multiset{op.value} else multiset{}
  }

  /** Under APPEND the map is a multimap: per-key iteration visits each appended value exactly once, in some order. */
  lemma {:induction false} RefinesMultimap(f: Fns, ops: seq<Op>)
    requires Lawful(f) && NoEnomem(f, ops) && Appends(ops)
    ensures StateOk(f, After(f, ops).table, After(f, ops).bits)
    ensures forall k :: multiset(ValuesFor(f, After(f, ops).table, After(f, ops).bits, k)) == Appended(f, ops, k)
  {
    if ops == [] {
      assert forall k :: ValuesFor(f, [], 0, k) == [];
    } else {
      var init, op := ops[..|ops| - 1], ops[|ops| - 1];
      RefinesMultimap(f, init);
      assert ops[..|ops| - 1] == init && op in ops;
      var h := After(f, init);
      StepRefines(f, h, op);
      forall k
        ensures multiset(ValuesFor(f, After(f, ops).table, After(f, ops).bits, k)) == Appended(f, ops, k)
      {
        AppendRefines(f, h, op, k);
      }
    }
  }

  lemma AppendRefines(f: Fns, h: HState, op: Op, k: int)
    requires StateOk(f, h.table, h.bits) && op.Ins? && op.s == APPEND
    requires Insert(f, h.table, h.bits, op.key, op.value, APPEND).err != ENOMEM
    ensures var g := Apply(f, h, op);
      multiset(ValuesFor(f, g.table, g.bits, k)) ==
        multiset(ValuesFor(f, h.table, h.bits, k)) + if f.eq(k, op.key) then multiset{op.value} else multiset{}
  {
    InsertErrors(f, h.table, h.bits, op.key, op.value, APPEND);
    InsertValues(f, h.table, h.bits, op.key, op.value, APPEND, k);
    AppendedValue(f, h.table, h.bits, op.key, op.value, k);
  }

  lemma AppendedValue(f: Fns, t: Table, bits: nat, key: int, value: int, k: int)
    ensures multiset(ValuesAfter(f, t, bits, key, value, APPEND, k)) ==
      multiset(ValuesFor(f, t, bits, k)) + if f.eq(k, key) then multiset{value} else multiset{}
  {
    ReverseMembers(ValuesFor(f, t, bits, k));
  }
}
