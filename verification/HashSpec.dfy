// libbpf/src/hashmap.h, hashmap.c: hashing, and what each operation does to the table of bucket chains.
module HashSpec {
  import opened Prelude
  import opened Words

  const GOLDEN: int := 11400714819323198485
  const HASHMAP_MIN_CAP_BITS: nat := 2

  /** calloc of 2^61 pointers of 8 bytes exceeds the address space. */
  const FAIL_BITS: nat := 61

  function Shuffled(h: nat): nat { WrapU64(h * GOLDEN) }

  /** hash_bits, LP64: multiply modulo 2^64 and keep the upper bits. */
  function HashBits(h: nat, bits: nat): nat {
    if bits == 0 || bits > 64 then 0 else ShiftRight(Shuffled(h), 64 - bits)
  }

  datatype Pair = Pair(key: int, value: int)

  /** hash_fn and equal_fn, with their context. */
  datatype Fns = Fns(hash: int -> nat, eq: (int, int) -> bool)

  /** What callers must supply: an equality and a hash that respects it. */
  ghost predicate Lawful(f: Fns) {
    && (forall a :: f.eq(a, a))
    && (forall a, b :: f.eq(a, b) ==> f.eq(b, a))
    && (forall a, b, c :: f.eq(a, b) && f.eq(b, c) ==> f.eq(a, c))
    && forall a, b :: f.eq(a, b) ==> f.hash(a) == f.hash(b)
  }

  function Bucket(f: Fns, key: int, bits: nat): nat { HashBits(f.hash(key), bits) }

  type Chain = seq<Pair>
  type Table = seq<Chain>

  /** 2^bits buckets, or none before the first growth. */
  function Capacity(bits: nat): nat { if bits == 0 then 0 else Pow2(bits) }

  /** Each entry sits in the bucket of its hash. */
  ghost predicate TableOk(f: Fns, t: Table, bits: nat) {
    && |t| == Capacity(bits)
    && forall b, i :: 0 <= b < |t| && 0 <= i < |t[b]| ==> Bucket(f, t[b][i].key, bits) == b
  }

  // ----- the bucket index -----

  /** The bucket index is below the capacity. */
  lemma BucketInRange(f: Fns, key: int, bits: nat)
    requires 0 < bits <= 64
    ensures Bucket(f, key, bits) < Capacity(bits)
  {
    Pow64();
    Pow2Add(bits, 64 - bits);
    QuotientBelow(Shuffled(f.hash(key)), Pow2(64 - bits), Pow2(bits));
  }

  /** The number of buckets that cannot be allocated: their pointers of 8 bytes fill 2^64 bytes or more. */
  lemma FailBitsIs(bits: nat)
    ensures bits >= FAIL_BITS <==> 8 * Pow2(bits) >= 0x1_0000_0000_0000_0000
  {
    Pow64();
    assert Pow2(3) == 8;
    Pow2Add(3, 61);
    Pow2Add(3, 60);
    assert Pow2(64) == 2 * Pow2(63);
    if bits >= 61 {
      PowAtLeast(61, bits);
    } else {
      PowAtLeast(bits, 60);
    }
  }

  lemma {:induction false} PowAtLeast(a: nat, b: nat)
    requires a <= b
    ensures Pow2(a) <= Pow2(b)
    decreases b
  {
    if a < b {
      PowAtLeast(a, b - 1);
    }
  }

  /** The bucket is the upper bits of the hash times the 64-bit golden ratio, modulo 2^64. */
  lemma BucketIs(f: Fns, key: int, bits: nat)
    requires 0 < bits <= 64
    ensures var product := f.hash(key) * 11400714819323198485 % 0x1_0000_0000_0000_0000;
      Bucket(f, key, bits) * Pow2(64 - bits) <= product < (Bucket(f, key, bits) + 1) * Pow2(64 - bits)
  {
    QuotientBounds(Shuffled(f.hash(key)), Pow2(64 - bits));
  }

  lemma QuotientBounds(x: nat, d: nat)
    requires d > 0
    ensures x / d * d <= x < (x / d + 1) * d
  {
    assert x == x / d * d + x % d;
    MulSucc(x / d, d);
  }

  lemma HalfQuotient(x: nat, d: nat)
    requires d > 0
    ensures (x / d) / 2 == x / (2 * d)
  {
    var q, r := x / d, x % d;
    assert x == q * d + r;
    var h, o := q / 2, q % 2;
    assert q == 2 * h + o;
    assert x == h * (2 * d) + (o * d + r) by { assert (2 * h + o) * d == h * (2 * d) + o * d; }
    assert 0 <= o * d + r < 2 * d by { assert o == 0 || o == 1; }
    DivModUnique(x, 2 * d, h, o * d + r);
  }

  /** One more bit refines the index: bucket b splits into 2b and 2b + 1. */
  lemma BucketSplits(f: Fns, key: int, bits: nat)
    requires 0 < bits < 64
    ensures Bucket(f, key, bits + 1) / 2 == Bucket(f, key, bits)
  {
    assert Pow2(64 - bits) == 2 * Pow2(64 - (bits + 1));
    HalfQuotient(Shuffled(f.hash(key)), Pow2(64 - (bits + 1)));
  }

  // ----- chains -----

  /** The first entry of a chain whose key equals `key`. */
  function FirstMatch(f: Fns, c: Chain, key: int): (r: Option<nat>)
    ensures r.Some? ==> r.value < |c| && f.eq(c[r.value].key, key) && forall j :: 0 <= j < r.value ==> !f.eq(c[j].key, key)
    ensures r.None? ==> forall j :: 0 <= j < |c| ==> !f.eq(c[j].key, key)
  {
    if c == [] then None
    else if f.eq(c[0].key, key) then Some(0)
    else match FirstMatch(f, c[1..], key)
      case None => None
      case Some(i) =>
        assert c[1..][i] == c[i + 1];
        assert forall j :: 1 <= j < i + 1 ==> c[j] == c[1..][j - 1];
        Some(i + 1)
  }

  /** All values stored for a key, in chain order. */
  function Matches(f: Fns, c: Chain, key: int): seq<int> {
    if c == [] then []
    else (if f.eq(c[0].key, key) then [c[0].value] else []) + Matches(f, c[1..], key)
  }

  function Home(f: Fns, t: Table, bits: nat, key: int): Chain {
    var h := Bucket(f, key, bits);
    if h < |t| then t[h] else []
  }

  /** hashmap_find. */
  function Lookup(f: Fns, t: Table, bits: nat, key: int): Option<int> {
    match FirstMatch(f, Home(f, t, bits, key), key)
    case None => None
    case Some(i) => Some(Home(f, t, bits, key)[i].value)
  }

  /** What per-key iteration visits. */
  function ValuesFor(f: Fns, t: Table, bits: nat, key: int): seq<int> { Matches(f, Home(f, t, bits, key), key) }

  /** Lookup returns the first value per-key iteration visits. */
  lemma {:induction false} FirstOfMatches(f: Fns, c: Chain, key: int)
    ensures match FirstMatch(f, c, key)
      case None => Matches(f, c, key) == []
      case Some(i) => Matches(f, c, key) != [] && Matches(f, c, key)[0] == c[i].value
  {
    if c != [] && !f.eq(c[0].key, key) {
      FirstOfMatches(f, c[1..], key);
    }
  }

  lemma {:induction false} MatchesConcat(f: Fns, a: Chain, b: Chain, key: int)
    ensures Matches(f, a + b, key) == Matches(f, a, key) + Matches(f, b, key)
  {
    if a == [] {
      assert a + b == b;
    } else {
      assert (a + b)[1..] == a[1..] + b;
      MatchesConcat(f, a[1..], b, key);
    }
  }

  function Reverse<T>(s: seq<T>): (r: seq<T>)
    ensures |r| == |s|
  {
    if s == [] then [] else [s[|s| - 1]] + Reverse(s[..|s| - 1])
  }

  lemma {:induction false} ReverseConcat<T>(a: seq<T>, b: seq<T>)
    ensures Reverse(a + b) == Reverse(b) + Reverse(a)
  {
    if b == [] {
      assert a + b == a;
    } else {
      assert (a + b)[..|a + b| - 1] == a + b[..|b| - 1];
      ReverseConcat(a, b[..|b| - 1]);
    }
  }

  /** Reversing a chain reverses the values stored for each key. */
  lemma {:induction false} MatchesReverse(f: Fns, c: Chain, key: int)
    ensures Matches(f, Reverse(c), key) == Reverse(Matches(f, c, key))
  {
    if c != [] {
      var init, last := c[..|c| - 1], c[|c| - 1];
      MatchesReverse(f, init, key);
      assert Reverse(c) == [last] + Reverse(init);
      MatchesConcat(f, [last], Reverse(init), key);
      assert c == init + [last];
      MatchesConcat(f, init, [last], key);
      ReverseConcat(Matches(f, init, key), Matches(f, [last], key));
      ReverseShort(Matches(f, [last], key));
      MatchesOne(f, last, key);
    }
  }

  lemma MatchesSnoc(f: Fns, c: Chain, p: Pair, key: int)
    ensures Matches(f, c + [p], key) == Matches(f, c, key) + if f.eq(p.key, key) then [p.value] else []
  {
    MatchesConcat(f, c, [p], key);
    MatchesOne(f, p, key);
  }

  lemma MatchesOne(f: Fns, p: Pair, key: int)
    ensures Matches(f, [p], key) == if f.eq(p.key, key) then [p.value] else []
  {
  }

  lemma ReverseShort<T>(s: seq<T>)
    requires |s| <= 1
    ensures Reverse(s) == s
  {
  }

  // ----- growth -----

  function Flatten(t: Table): Chain {
    if t == [] then [] else Flatten(t[..|t| - 1]) + t[|t| - 1]
  }

  /** The entries that go to bucket b. */
  function Filter(f: Fns, c: Chain, bits: nat, b: nat): Chain {
    if c == [] then []
    else Filter(f, c[..|c| - 1], bits, b) + if Bucket(f, c[|c| - 1].key, bits) == b then [c[|c| - 1]] else []
  }

  /** Pushing the entries of c, in order, each at the head of its chain. */
  function GrownFrom(f: Fns, c: Chain, bits: nat): (r: Table)
    ensures |r| == Capacity(bits)
  {
    seq(Capacity(bits), b requires 0 <= b < Capacity(bits) => Reverse(Filter(f, c, bits, b)))
  }

  /** hashmap_grow pushes every entry in iteration order. */
  function Grown(f: Fns, t: Table, bits: nat): (r: Table)
    ensures |r| == Capacity(bits)
  {
    GrownFrom(f, Flatten(t), bits)
  }

  /** One more push. */
  lemma GrownSnoc(f: Fns, c: Chain, p: Pair, bits: nat)
    requires Bucket(f, p.key, bits) < Capacity(bits)
    ensures var g, h := GrownFrom(f, c, bits), Bucket(f, p.key, bits);
      GrownFrom(f, c + [p], bits) == g[h := [p] + g[h]]
  {
    assert (c + [p])[..|c|] == c;
    var g, r := GrownFrom(f, c, bits), GrownFrom(f, c + [p], bits);
    forall b | 0 <= b < Capacity(bits)
      ensures r[b] == if b == Bucket(f, p.key, bits) then [p] + g[b] else g[b]
    {
      var x := Filter(f, c, bits, b);
      assert (x + [p])[..|x|] == x && x + [] == x;
    }
  }

  lemma {:induction false} FilterConcat(f: Fns, x: Chain, y: Chain, bits: nat, b: nat)
    ensures Filter(f, x + y, bits, b) == Filter(f, x, bits, b) + Filter(f, y, bits, b)
  {
    if y == [] {
      assert x + y == x;
    } else {
      assert (x + y)[..|x + y| - 1] == x + y[..|y| - 1];
      FilterConcat(f, x, y[..|y| - 1], bits, b);
    }
  }

  lemma {:induction false} FilterAll(f: Fns, c: Chain, bits: nat, b: nat)
    ensures forall p :: p in Filter(f, c, bits, b) <==> p in c && Bucket(f, p.key, bits) == b
  {
    if c != [] {
      FilterAll(f, c[..|c| - 1], bits, b);
      assert c == c[..|c| - 1] + [c[|c| - 1]];
    }
  }

  lemma {:induction false} FilterNone(f: Fns, c: Chain, bits: nat, b: nat)
    requires forall p :: p in c ==> Bucket(f, p.key, bits) != b
    ensures Filter(f, c, bits, b) == []
  {
    if c != [] {
      FilterNone(f, c[..|c| - 1], bits, b);
    }
  }

  /** After a growth by one bit, only old bucket b / 2 contributes to new bucket b. */
  lemma {:induction false} FilterFlatten(f: Fns, t: Table, n: nat, bits: nat, b: nat)
    requires TableOk(f, t, bits) && 0 < bits < 64 && n <= |t|
    ensures Filter(f, Flatten(t[..n]), bits + 1, b) == if b / 2 < n then Filter(f, t[b / 2], bits + 1, b) else []
    decreases n
  {
    if n > 0 {
      assert t[..n][..n - 1] == t[..n - 1];
      FilterFlatten(f, t, n - 1, bits, b);
      FilterConcat(f, Flatten(t[..n - 1]), t[n - 1], bits + 1, b);
      if b / 2 != n - 1 {
        OtherBucket(f, t, n - 1, bits, b);
      }
    }
  }

  lemma OtherBucket(f: Fns, t: Table, k: nat, bits: nat, b: nat)
    requires TableOk(f, t, bits) && 0 < bits < 64 && k < |t| && b / 2 != k
    ensures Filter(f, t[k], bits + 1, b) == []
  {
    forall p | p in t[k]
      ensures Bucket(f, p.key, bits + 1) != b
    {
      var i :| 0 <= i < |t[k]| && t[k][i] == p;
      BucketSplits(f, p.key, bits);
    }
    FilterNone(f, t[k], bits + 1, b);
  }

  /** A growth step sends old bucket b to new buckets 2b and 2b + 1, each the reverse of the matching part. */
  lemma GrowthSplits(f: Fns, t: Table, bits: nat, b: nat)
    requires TableOk(f, t, bits) && 0 < bits < 64 && b < Capacity(bits + 1)
    ensures b / 2 < |t|
    ensures Grown(f, t, bits + 1)[b] == Reverse(Filter(f, t[b / 2], bits + 1, b))
  {
    FilterFlatten(f, t, |t|, bits, b);
    assert t[..|t|] == t;
    assert Capacity(bits + 1) == 2 * Capacity(bits);
  }

  lemma {:induction false} ReverseMembers<T>(s: seq<T>)
    ensures forall x :: x in Reverse(s) <==> x in s
    ensures multiset(Reverse(s)) == multiset(s)
  {
    if s != [] {
      ReverseMembers(s[..|s| - 1]);
      assert s == s[..|s| - 1] + [s[|s| - 1]];
    }
  }

  /** A grown table has every entry in the bucket of its hash. */
  lemma GrownOk(f: Fns, t: Table, bits: nat)
    ensures TableOk(f, Grown(f, t, bits), bits)
  {
    var r: Table := Grown(f, t, bits);
    forall b, i | 0 <= b < |r| && 0 <= i < |r[b]|
      ensures Bucket(f, r[b][i].key, bits) == b
    {
      var c := Filter(f, Flatten(t), bits, b);
      ReverseMembers(c);
      assert r[b][i] in Reverse(c);
      FilterAll(f, Flatten(t), bits, b);
    }
  }

  // ----- growth and what can be observed -----

  lemma {:induction false} MatchesFilter(f: Fns, c: Chain, bits: nat, key: int)
    requires Lawful(f)
    ensures Matches(f, Filter(f, c, bits, Bucket(f, key, bits)), key) == Matches(f, c, key)
  {
    var b := Bucket(f, key, bits);
    if c == [] {
    } else {
      var init, last := c[..|c| - 1], c[|c| - 1];
      MatchesFilter(f, init, bits, key);
      assert c == init + [last];
      MatchesConcat(f, init, [last], key);
      MatchesOne(f, last, key);
      var kept := if Bucket(f, last.key, bits) == b then [last] else [];
      MatchesConcat(f, Filter(f, init, bits, b), kept, key);
    }
  }

  /** Growth reverses the order of the values stored for a key. */
  lemma GrowthReversesKey(f: Fns, t: Table, bits: nat, key: int)
    requires Lawful(f) && TableOk(f, t, bits) && 0 < bits < 64
    ensures ValuesFor(f, Grown(f, t, bits + 1), bits + 1, key) == Reverse(ValuesFor(f, t, bits, key))
  {
    var b := Bucket(f, key, bits + 1);
    BucketInRange(f, key, bits + 1);
    GrowthSplits(f, t, bits, b);
    BucketSplits(f, key, bits);
    MatchesFilter(f, t[b / 2], bits + 1, key);
    MatchesReverse(f, Filter(f, t[b / 2], bits + 1, b), key);
  }

  lemma {:induction false} ReverseHead<T>(s: seq<T>)
    requires s != []
    ensures Reverse(s)[0] == s[|s| - 1]
  {
  }

  /** So find survives a growth exactly when the first and the last value of the key are the same. */
  lemma FindAfterGrowth(f: Fns, t: Table, bits: nat, key: int)
    requires Lawful(f) && TableOk(f, t, bits) && 0 < bits < 64
    ensures var vs := ValuesFor(f, t, bits, key);
      Lookup(f, Grown(f, t, bits + 1), bits + 1, key) == Lookup(f, t, bits, key) <==> vs == [] || vs[0] == vs[|vs| - 1]
  {
    var vs := ValuesFor(f, t, bits, key);
    var ws := ValuesFor(f, Grown(f, t, bits + 1), bits + 1, key);
    GrowthReversesKey(f, t, bits, key);
    FirstOfMatches(f, Home(f, t, bits, key), key);
    FirstOfMatches(f, Home(f, Grown(f, t, bits + 1), bits + 1, key), key);
    if vs != [] {
      ReverseHead(vs);
    }
  }

  // ----- insertion and deletion -----

  datatype Strategy = ADD | SET | UPDATE | APPEND

  datatype Err = OK | EEXIST | ENOENT | ENOMEM

  /** hashmap_needs_to_grow. */
  predicate NeedsToGrow(sz: nat, bits: nat) {
    Capacity(bits) == 0 || (sz + 1) * 4 / 3 > Capacity(bits)
  }

  function NewBits(bits: nat): nat {
    if bits + 1 < HASHMAP_MIN_CAP_BITS then HASHMAP_MIN_CAP_BITS else bits + 1
  }

  /** A new entry at the head of its chain. */
  function Pushed(f: Fns, t: Table, bits: nat, p: Pair): Table {
    var h := Bucket(f, p.key, bits);
    if h < |t| then t[h := [p] + t[h]] else t
  }

  /** The first matching entry overwritten. */
  function Replaced(f: Fns, t: Table, bits: nat, key: int, value: int): Table {
    var h := Bucket(f, key, bits);
    match FirstMatch(f, Home(f, t, bits, key), key)
    case None => t
    case Some(i) => t[h := t[h][i := Pair(key, value)]]
  }

  /** What an insertion leaves behind and returns through old_key and old_value. */
  datatype Outcome = Outcome(table: Table, bits: nat, err: Err, oldKey: int, oldValue: int)

  /** hashmap_insert. */
  function Insert(f: Fns, t: Table, bits: nat, key: int, value: int, s: Strategy): Outcome {
    var m := FirstMatch(f, Home(f, t, bits, key), key);
    if s != APPEND && m.Some? then
      var found := Home(f, t, bits, key)[m.value];
      if s == ADD then Outcome(t, bits, EEXIST, found.key, found.value)
      else Outcome(Replaced(f, t, bits, key, value), bits, OK, found.key, found.value)
    else if s == UPDATE then Outcome(t, bits, ENOENT, 0, 0)
    else if !NeedsToGrow(|Flatten(t)|, bits) then Outcome(Pushed(f, t, bits, Pair(key, value)), bits, OK, 0, 0)
    else if NewBits(bits) >= FAIL_BITS then Outcome(t, bits, ENOMEM, 0, 0)
    else
      var b := NewBits(bits);
      Outcome(Pushed(f, Grown(f, t, b), b, Pair(key, value)), b, OK, 0, 0)
  }

  function Drop(c: Chain, i: nat): (r: Chain)
    requires i < |c|
    ensures |r| == |c| - 1
  {
    c[..i] + c[i + 1..]
  }

  /** hashmap_delete: the first matching entry goes. */
  function Delete(f: Fns, t: Table, bits: nat, key: int): Table {
    var h := Bucket(f, key, bits);
    match FirstMatch(f, Home(f, t, bits, key), key)
    case None => t
    case Some(i) => t[h := Drop(t[h], i)]
  }

  lemma PushedOk(fns: Fns, t: Table, bits: nat, p: Pair)
    requires TableOk(fns, t, bits)
    ensures TableOk(fns, Pushed(fns, t, bits, p), bits)
  {
  }

  // ----- counting entries -----

  /** The entries of a table, chain by chain. */
  ghost function Pairs(t: Table): multiset<Pair> {
    if t == [] then multiset{} else Pairs(t[..|t| - 1]) + multiset(t[|t| - 1])
  }

  lemma {:induction false} FlattenPairs(t: Table)
    ensures multiset(Flatten(t)) == Pairs(t) && |Flatten(t)| == |Pairs(t)|
  {
    if t != [] {
      FlattenPairs(t[..|t| - 1]);
      assert multiset(Flatten(t)) == multiset(Flatten(t[..|t| - 1])) + multiset(t[|t| - 1]);
    }
    assert |multiset(Flatten(t))| == |Flatten(t)|;
  }

  lemma {:induction false} PairsUpdate(t: Table, h: nat, c: Chain)
    requires h < |t|
    ensures Pairs(t[h := c]) + multiset(t[h]) == Pairs(t) + multiset(c)
    decreases |t|
  {
    var init, u := t[..|t| - 1], t[h := c];
    if h == |t| - 1 {
      assert u[..|u| - 1] == init && u[|u| - 1] == c;
    } else {
      PairsUpdate(init, h, c);
      assert u[..|u| - 1] == init[h := c] && u[|u| - 1] == t[|t| - 1];
      Regroup(Pairs(init[h := c]), multiset(t[|t| - 1]), multiset(t[h]), Pairs(init), multiset(c));
    }
  }

  lemma Regroup(a: multiset<Pair>, last: multiset<Pair>, x: multiset<Pair>, b: multiset<Pair>, c: multiset<Pair>)
    requires a + x == b + c
    ensures (a + last) + x == (b + last) + c
  {
    assert (a + last) + x == (a + x) + last;
    assert (b + last) + c == (b + c) + last;
  }

  /** A push adds one entry. */
  lemma PushAdds(t: Table, h: nat, p: Pair)
    requires h < |t|
    ensures Pairs(t[h := [p] + t[h]]) == Pairs(t) + multiset{p}
    ensures |Flatten(t[h := [p] + t[h]])| == |Flatten(t)| + 1
  {
    var u := t[h := [p] + t[h]];
    PairsUpdate(t, h, [p] + t[h]);
    assert multiset([p] + t[h]) == multiset{p} + multiset(t[h]);
    CancelRight(Pairs(u), Pairs(t) + multiset{p}, multiset(t[h]));
    FlattenPairs(u);
    FlattenPairs(t);
  }

  lemma CancelRight(a: multiset<Pair>, b: multiset<Pair>, x: multiset<Pair>)
    requires a + x == b + x
    ensures a == b
  {
    forall p: Pair
      ensures a[p] == b[p]
    {
      assert (a + x)[p] == (b + x)[p];
    }
  }

  lemma {:induction false} GrownFromPairs(f: Fns, c: Chain, bits: nat)
    requires 0 < bits <= 64
    ensures Pairs(GrownFrom(f, c, bits)) == multiset(c)
  {
    if c == [] {
      PairsEmpty(GrownFrom(f, c, bits));
    } else {
      var init, p := c[..|c| - 1], c[|c| - 1];
      GrownFromPairs(f, init, bits);
      GrownNextPairs(f, init, p, bits);
      Snoc(c);
      assert multiset(init + [p]) == multiset(init) + multiset{p};
    }
  }

  lemma Snoc<T>(s: seq<T>)
    requires s != []
    ensures s == s[..|s| - 1] + [s[|s| - 1]]
  {
  }

  lemma GrownNextPairs(f: Fns, init: Chain, p: Pair, bits: nat)
    requires 0 < bits <= 64
    ensures Pairs(GrownFrom(f, init + [p], bits)) == Pairs(GrownFrom(f, init, bits)) + multiset{p}
  {
    BucketInRange(f, p.key, bits);
    GrownSnoc(f, init, p, bits);
    PushAdds(GrownFrom(f, init, bits), Bucket(f, p.key, bits), p);
  }

  lemma {:induction false} PairsEmpty(t: Table)
    requires forall b :: 0 <= b < |t| ==> t[b] == []
    ensures Pairs(t) == multiset{}
  {
    if t != [] {
      PairsEmpty(t[..|t| - 1]);
    }
  }

  /** Growth keeps the multiset of entries. */
  lemma GrowthKeepsPairs(f: Fns, t: Table, bits: nat)
    requires 0 < bits <= 64
    ensures Pairs(Grown(f, t, bits)) == Pairs(t)
    ensures |Flatten(Grown(f, t, bits))| == |Flatten(t)|
  {
    GrownFromPairs(f, Flatten(t), bits);
    FlattenPairs(t);
    FlattenPairs(Grown(f, t, bits));
  }

  /** Dropping an entry keeps the rest where they belong. */
  lemma DropOk(fns: Fns, t: Table, bits: nat, h: nat, i: nat)
    requires TableOk(fns, t, bits) && h < |t| && i < |t[h]|
    ensures TableOk(fns, t[h := Drop(t[h], i)], bits)
    ensures |Flatten(t[h := Drop(t[h], i)])| + 1 == |Flatten(t)|
  {
    var u: Table := t[h := Drop(t[h], i)];
    forall b, j | 0 <= b < |u| && 0 <= j < |u[b]|
      ensures Bucket(fns, u[b][j].key, bits) == b
    {
      assert u[b][j] == t[b][if b == h && j >= i then j + 1 else j];
    }
    PairsUpdate(t, h, Drop(t[h], i));
    FlattenPairs(t);
    FlattenPairs(u);
    assert |Pairs(u) + multiset(t[h])| == |Pairs(t) + multiset(Drop(t[h], i))|;
  }

  /** Overwriting an entry keeps their number. */
  lemma SameSizes(t: Table, h: nat, i: nat, p: Pair)
    requires h < |t| && i < |t[h]|
    ensures |Flatten(t[h := t[h][i := p]])| == |Flatten(t)|
  {
    PairsUpdate(t, h, t[h][i := p]);
    FlattenPairs(t);
    FlattenPairs(t[h := t[h][i := p]]);
    assert |Pairs(t[h := t[h][i := p]]) + multiset(t[h])| == |Pairs(t) + multiset(t[h][i := p])|;
  }
}
