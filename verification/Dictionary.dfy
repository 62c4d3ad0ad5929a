/**
  The interning dictionary: lookups that add a missing string, over a Robin Hood table and
  an append-only pool. Its abstract state is a map from addresses to the strings stored there.
 */
module Dictionary {
  import opened Bits
  import opened Options
  import opened RobinHood
  import opened StringPool
  import opened DictHash

  type Key = seq<Byte>
  type Interned = map<Addr, Key>

  const MIN_HASH_SIZE: nat := 8
  const MAX_HASH_SIZE: nat := 0x8000_0000

  /** Each address in `m` occupies exactly one slot, under its string's hash; no other slot is occupied. */
  ghost predicate Holds(t: Table, m: Interned, hs: Hasher) {
    forall s :: s != EMPTY ==>
      multiset(t)[s] == if s.name in m && s.hash == Hash(hs, m[s.name]) then 1 else 0
  }

  /** The representation invariant, over the values of the dictionary's parts. */
  ghost predicate Inv(t: Table, count: nat, m: Interned, hs: Hasher, v: View) {
    && (if t == [] then m == map[] else RobinHood.Valid(t))
    && Holds(t, m, hs)
    && |m| == count <= |t| / 8 * 7
    && multiset(t)[EMPTY] == |t| - count
    && forall a :: a in m ==> StoredAt(v, a, m[a])
  }

  /** No string is stored at two addresses. */
  ghost predicate Unique(m: Interned) {
    forall a, b :: a in m && b in m && m[a] == m[b] ==> a == b
  }

  lemma SlotIsInterned(t: Table, m: Interned, hs: Hasher, j: nat)
    requires Holds(t, m, hs) && j < |t| && t[j].hash != 0
    ensures t[j].name in m && t[j].hash == Hash(hs, m[t[j].name])
  {
    assert t[j] in multiset(t);
  }

  lemma InternedHasSlot(t: Table, m: Interned, hs: Hasher, a: Addr) returns (j: nat)
    requires Holds(t, m, hs) && a in m
    ensures j < |t| && t[j] == Slot(Hash(hs, m[a]), a)
  {
    var s := Slot(Hash(hs, m[a]), a);
    assert s in multiset(t);
    assert s in t;
    j :| 0 <= j < |t| && t[j] == s;
  }

  lemma PoolGrows(t: Table, count: nat, m: Interned, hs: Hasher, v: View, v': View)
    requires Inv(t, count, m, hs, v) && Extends(v, v')
    ensures Inv(t, count, m, hs, v')
  {
    forall a | a in m ensures StoredAt(v', a, m[a]) {
      StoredStays(v, v', a, m[a]);
    }
  }

  lemma HoldsAdded(t: Table, r: Table, m: Interned, hs: Hasher, a: Addr, key: Key)
    requires Holds(t, m, hs) && a !in m
    requires multiset(r) == multiset(t) - multiset{EMPTY} + multiset{Slot(Hash(hs, key), a)}
    ensures Holds(r, m[a := key], hs)
  {
  }

  /** A new string enters the table and the abstract state together. */
  lemma EntryAdded(t: Table, q: nat, displ: nat, c: nat, r: Table, count: nat, m: Interned, hs: Hasher, v: View, a: Addr, key: Key)
    requires Inv(t, count, m, hs, v) && t != [] && count + 1 <= |t| / 8 * 7
    requires Belongs(t, Home(Hash(hs, key), |t|), displ, q)
    requires a !in m && StoredAt(v, a, key)
    requires c < |t| && FirstEmptyFrom(t, q, c) && Inserted(t, q, c, Slot(Hash(hs, key), a), r)
    ensures Inv(r, count + 1, m[a := key], hs, v)
  {
    var s := Slot(Hash(hs, key), a);
    InsertKeepsOrder(t, Home(s.hash, |t|), displ, q, c, s, r);
    InsertedBag(t, q, c, s, r);
    assert EMPTY in multiset(t);
    HoldsAdded(t, r, m, hs, a, key);
    CountAdded(t, r, s, count, m, key);
  }

  lemma CountAdded(t: Table, r: Table, s: Slot, count: nat, m: Interned, key: Key)
    requires s != EMPTY && s.name !in m && EMPTY in multiset(t) && |r| == |t|
    requires |m| == count && count + 1 <= |t| / 8 * 7 && multiset(t)[EMPTY] == |t| - count
    requires multiset(r) == multiset(t) - multiset{EMPTY} + multiset{s}
    ensures |m[s.name := key]| == count + 1 && multiset(r)[EMPTY] == |r| - (count + 1) && EMPTY in r
  {
    assert m[s.name := key].Keys == m.Keys + {s.name};
    assert EMPTY in multiset(r);
  }

  lemma NewAddress(m: Interned, v: View, v': View, a: Addr, key: Key)
    requires Appended(v, v', a, key) && forall b :: b in m ==> StoredAt(v, b, m[b])
    ensures a !in m
  {
    if a in m { AppendedIsNew(v, v', a, key, a, m[a]); }
  }

  // ----- requests -----

  /** The string a lookup asks for. */
  function RequestKey(prefix: Option<Key>, name: Key, maxLen: nat): (k: Key)
    requires prefix.Some? ==> 0 in prefix.value && 0 in name
    requires prefix.None? ==> maxLen <= |name| || 0 in name
    ensures 0 !in k && (prefix.Some? ==> k != [])
  {
    match prefix
    case None => name[..CLength(name, maxLen)]
    case Some(p) => p[..CLength(p, |p|)] + [COLON] + name[..CLength(name, |name|)]
  }

  predicate EmptyPrefix(prefix: Option<Key>) {
    prefix.Some? && (prefix.value == [] || prefix.value[0] == 0)
  }

  /**
    A request as it stands before the call: what is asked for, the empty strings that would be
    misread as the key because its bytes lie right behind them, and what stands in its way.
   */
  datatype Request = Request(prefix: Option<Key>, key: Key, update: bool, misread: set<Addr>, tooLong: bool, noRoom: bool)

  ghost predicate WellFormed(m: Interned, q: Request) {
    && (forall a :: a in q.misread ==> a in m && m[a] == [])
    && (EmptyPrefix(q.prefix) ==> q.key != [])
  }

  /** The addresses that a lookup takes for the answer. */
  ghost function Accepted(m: Interned, prefix: Option<Key>, key: Key, misread: set<Addr>): set<Addr> {
    if EmptyPrefix(prefix) then misread else set a | a in m && m[a] == key
  }

  ghost function Matches(m: Interned, q: Request): set<Addr> { Accepted(m, q.prefix, q.key, q.misread) }

  /** What a lookup does to the abstract state, and what it answers. */
  ghost predicate Outcome(m: Interned, m': Interned, q: Request, r: Option<Slot>) {
    && (r.Some? <==> !q.tooLong && (Matches(m, q) != {} || (q.update && !q.noRoom)))
    && (r.None? ==> m' == m)
    && (r.Some? && Matches(m, q) != {} ==> m' == m && r.value.name in Matches(m, q))
    && (r.Some? && Matches(m, q) == {} ==> r.value.name !in m && m' == m[r.value.name := q.key])
  }

  /** The request stores its string a second time: the prefix is empty, and nothing is accepted for it. */
  ghost predicate Duplicates(m: Interned, q: Request) {
    !q.tooLong && q.update && !q.noRoom && EmptyPrefix(q.prefix) && q.misread == {} && q.key in m.Values
  }

  /** The request is answered with an empty string, read on into the string behind it. */
  ghost predicate Misreads(q: Request) {
    !q.tooLong && EmptyPrefix(q.prefix) && q.misread != {}
  }

  /** Exactly when a lookup leaves strings unique. */
  lemma UniqueUnless(m: Interned, m': Interned, q: Request, r: Option<Slot>)
    requires Outcome(m, m', q, r)
    ensures Unique(m') <==> Unique(m) && !Duplicates(m, q)
  {
    if m' != m {
      var a := r.value.name;
      assert forall b :: b in m ==> b in m' && m'[b] == m[b];
      if q.key in m.Values {
        var b :| b in m && m[b] == q.key;
        assert m'[a] == m'[b];
        assert b in Matches(m, q) || EmptyPrefix(q.prefix);
      } else {
        assert forall b :: b in m ==> m[b] in m.Values;
      }
      if Unique(m') { assert Unique(m); }
    }
  }

  /** Exactly when the answer is the string asked for. */
  lemma RightUnless(m: Interned, m': Interned, q: Request, r: Option<Slot>)
    requires Outcome(m, m', q, r) && WellFormed(m, q) && r.Some?
    ensures r.value.name in m' && (m'[r.value.name] == q.key <==> !Misreads(q))
    ensures Misreads(q) ==> m'[r.value.name] == []
  {
  }

  // ----- searching -----

  /**
    A search from slot `home` for an accepted address has come `d` steps, to slot `idx`: the slots
    before it are occupied, none is accepted, and the last one was displaced far enough.
   */
  ghost predicate Searching(t: Table, home: nat, accepted: set<Addr>, d: nat, idx: nat) {
    && home < |t| && d < |t| && idx == Wrap(home + d, |t|)
    && (d > 0 ==> Disp(t, Wrap(home + d - 1, |t|)) >= d - 1)
    && forall j :: 0 <= j < |t| && Dist(home, j, |t|) < d ==> t[j].hash != 0 && t[j].name !in accepted
  }

  /** The test that keeps a probe going: the slot is occupied, at least `d` steps from its home. */
  predicate DisplacedBy(s: Slot, idx: nat, n: nat, d: nat)
    requires idx < n
  {
    s.hash != 0 && Dist(Home(s.hash, n), idx, n) >= d
  }

  lemma NextIndex(home: nat, d: nat, n: nat)
    requires home < n && d + 1 < n
    ensures var idx := Wrap(home + d, n); Wrap(home + d + 1, n) == if idx + 1 == n then 0 else idx + 1
    ensures forall j :: 0 <= j < n && Dist(home, j, n) == d ==> j == Wrap(home + d, n)
  {
  }

  /** An empty slot remains ahead of a search. */
  lemma EmptyAhead(t: Table, home: nat, accepted: set<Addr>, d: nat, idx: nat)
    requires EMPTY in t && Searching(t, home, accepted, d, idx) && t[idx].hash != 0
    ensures d + 1 < |t|
  {
    var e :| 0 <= e < |t| && t[e] == EMPTY;
    assert Dist(home, e, |t|) != d;
  }

  /** The search goes on past a slot that is not accepted. */
  lemma SearchStep(t: Table, home: nat, accepted: set<Addr>, d: nat, idx: nat)
    requires EMPTY in t && Searching(t, home, accepted, d, idx)
    requires Disp(t, idx) >= d && t[idx].name !in accepted
    ensures Searching(t, home, accepted, d + 1, if idx + 1 == |t| then 0 else idx + 1)
  {
    EmptyAhead(t, home, accepted, d, idx);
    NextIndex(home, d, |t|);
  }

  /** What a search without an answer has established: this is where a key with that home belongs. */
  ghost predicate Belongs(t: Table, home: nat, d: nat, idx: nat) {
    home < |t| && d < |t| && idx == Wrap(home + d, |t|) && InsertPoint(t, home, d)
  }

  lemma SearchEnds(t: Table, home: nat, accepted: set<Addr>, d: nat, idx: nat)
    requires Searching(t, home, accepted, d, idx) && Disp(t, idx) < d
    ensures Belongs(t, home, d, idx)
  {
  }

  /** No slot of the table is accepted. */
  ghost predicate NoneIn(t: Table, accepted: set<Addr>) {
    forall j :: 0 <= j < |t| && t[j].hash != 0 ==> t[j].name !in accepted
  }

  /** When the search gives up, no slot of the table is accepted. */
  lemma NothingMissed(t: Table, home: nat, hash: nat, accepted: set<Addr>, d: nat, idx: nat)
    requires Ordered(t) && Searching(t, home, accepted, d, idx) && Disp(t, idx) < d && home == Home(hash, |t|)
    requires forall j :: 0 <= j < |t| && t[j].hash != 0 && t[j].name in accepted ==> t[j].hash == hash
    ensures NoneIn(t, accepted)
  {
    forall j | 0 <= j < |t| && t[j].hash != 0
      ensures t[j].name !in accepted
    {
      if t[j].hash == hash { NoneFurther(t, home, accepted, d, idx, j); }
    }
  }

  /** Interned addresses of which none is in a slot are none at all. */
  lemma AllHaveSlots(t: Table, m: Interned, hs: Hasher, accepted: set<Addr>)
    requires Holds(t, m, hs) && forall a :: a in accepted ==> a in m
    requires NoneIn(t, accepted)
    ensures accepted == {}
  {
    if a :| a in accepted {
      var j := InternedHasSlot(t, m, hs, a);
    }
  }

  lemma NoneFurther(t: Table, home: nat, accepted: set<Addr>, d: nat, idx: nat, j: nat)
    requires Ordered(t) && Searching(t, home, accepted, d, idx) && Disp(t, idx) < d
    requires j < |t| && t[j].hash != 0 && Home(t[j].hash, |t|) == home
    ensures t[j].name !in accepted
  {
    AbortIsSound(t, home, d, j);
  }

  /** Moves the slots from `lo` up to, not including, `hi` one place on: a memmove by one slot. */
  method MoveOn(a: array<Slot>, lo: nat, hi: nat)
    requires lo <= hi < a.Length
    modifies a
    ensures forall k :: 0 <= k < a.Length ==> a[k] == if lo < k <= hi then old(a[k - 1]) else old(a[k])
  {
    forall k | lo < k <= hi { a[k] := a[k - 1]; }
  }

  /** Where copying begins: the first empty slot from the start. */
  method FirstEmpty(a: array<Slot>) returns (e: nat)
    requires RobinHood.Valid(a[..])
    ensures e < a.Length && a[e] == EMPTY
  {
    ghost var j :| 0 <= j < a.Length && a[..][j] == EMPTY;
    e := 0;
    while a[e].hash != 0
      invariant e <= j
      decreases j - e
    {
      e := e + 1;
    }
  }

  /** Puts the `i`-th copied entry into the doubled table at the first empty slot from its home. */
  method CopyEntry(u: array<Slot>, s: Slot, ghost t: Table, ghost e: nat, ghost i: nat)
    requires Ordered(t) && e < |t| && t[e].hash == 0 && i < |t| && Copied(t, e, u[..], i)
    requires Rotated(t, e)[i] == s && s.hash != 0
    modifies u
    ensures Copied(t, e, u[..], i + 1)
  {
    var m := u.Length;
    ghost var g := Home(s.hash, m);
    ghost var b := Bound(t, e, g, i);
    BoundIsEmpty(t, e, u[..], i, g);
    var q: nat := Home(s.hash, m);
    ghost var w := u[..];
    while u[q].hash != 0
      invariant q < m && u[..] == w && Probing(w, g, q, b)
      decreases m - Dist(g, q, m)
    {
      ProbeStep(w, g, q, b);
      q := if q + 1 == m then 0 else q + 1;
    }
    assert w[q] == EMPTY;
    CopyStep(t, e, w, i, g, q);
    u[q] := s;
    assert u[..] == w[q := s];
  }

  /** Linear probing from `g` has come to `q`, not past the empty slot `b`, through occupied slots. */
  ghost predicate Probing(u: Table, g: nat, q: nat, b: nat)
    requires g < |u| && q < |u| && b < |u|
  {
    && Dist(g, q, |u|) <= Dist(g, b, |u|)
    && forall x :: 0 <= x < |u| && Dist(g, x, |u|) < Dist(g, q, |u|) ==> u[x].hash != 0
  }

  lemma ProbeStep(u: Table, g: nat, q: nat, b: nat)
    requires g < |u| && q < |u| && b < |u| && u[b] == EMPTY
    requires Probing(u, g, q, b) && u[q].hash != 0
    ensures var q' := if q + 1 == |u| then 0 else q + 1;
            Probing(u, g, q', b) && Dist(g, q', |u|) == Dist(g, q, |u|) + 1
  {
    assert Dist(g, q, |u|) < Dist(g, b, |u|);
    assert forall x :: 0 <= x < |u| && Dist(g, x, |u|) == Dist(g, q, |u|) ==> x == q;
  }

  /** Copies every entry into an empty table of twice the size, in cyclic order from an empty slot. */
  method CopyTable(a: array<Slot>, u: array<Slot>)
    requires RobinHood.Valid(a[..]) && u != a && u.Length == 2 * a.Length
    requires forall x :: 0 <= x < u.Length ==> u[x] == EMPTY
    modifies u
    ensures RobinHood.Valid(u[..])
    ensures forall s :: s != EMPTY ==> multiset(u[..])[s] == multiset(a[..])[s]
    ensures multiset(u[..])[EMPTY] == a.Length + multiset(a[..])[EMPTY]
  {
    ghost var t := a[..];
    var n := a.Length;
    var e := FirstEmpty(a);
    var k := e;
    CopyStart(t, e, u[..]);
    for i := 0 to n
      invariant k < n && (i < n ==> k == Wrap(e + i, n))
      invariant Copied(t, e, u[..], i)
    {
      RotatedAt(t, e, i);
      CopySlot(u, a[k], t, e, i);
      k := if k + 1 == n then 0 else k + 1;
    }
    GrowthKeepsOrder(t, e, u[..]);
  }

  lemma RotatedAt(t: Table, e: nat, i: nat)
    requires e < |t| && i < |t|
    ensures Rotated(t, e)[i] == t[Wrap(e + i, |t|)]
  {
  }

  /** Copies the `i`-th slot in cyclic order, if it is occupied. */
  method CopySlot(u: array<Slot>, s: Slot, ghost t: Table, ghost e: nat, ghost i: nat)
    requires Ordered(t) && Clean(t) && e < |t| && t[e].hash == 0 && i < |t| && Copied(t, e, u[..], i)
    requires Rotated(t, e)[i] == s
    modifies u
    ensures Copied(t, e, u[..], i + 1)
  {
    if s.hash != 0 {
      CopyEntry(u, s, t, e, i);
    } else {
      SkipStep(t, e, u[..], i);
    }
  }

  /** A table of twice the size, or the first one, with the same entries. */
  method Doubled(a: array<Slot>) returns (u: array<Slot>)
    requires a.Length > 0 ==> RobinHood.Valid(a[..])
    ensures fresh(u) && u.Length == if a.Length == 0 then MIN_HASH_SIZE else 2 * a.Length
    ensures SameEntries(a[..], u[..])
  {
    u := new Slot[if a.Length == 0 then MIN_HASH_SIZE else 2 * a.Length](_ => EMPTY);
    if a.Length == 0 {
      AllEmptyBag(u[..]);
      assert u[..][0] == EMPTY;
    } else {
      CopyTable(a, u);
    }
  }

  /** `u` is a valid, larger table with the entries of `t`. */
  ghost predicate SameEntries(t: Table, u: Table) {
    && RobinHood.Valid(u) && |u| >= |t|
    && (forall s :: s != EMPTY ==> multiset(u)[s] == multiset(t)[s])
    && multiset(u)[EMPTY] == |u| - |t| + multiset(t)[EMPTY]
  }

  lemma TableGrows(t: Table, u: Table, count: nat, m: Interned, hs: Hasher, v: View)
    requires Inv(t, count, m, hs, v) && SameEntries(t, u)
    ensures Inv(u, count, m, hs, v)
  {
  }

  lemma SizeGrows(n: nat, m: nat)
    requires n > 0 ==> IsPow2(n) && MIN_HASH_SIZE <= n < MAX_HASH_SIZE
    requires m == if n == 0 then MIN_HASH_SIZE else 2 * n
    ensures IsPow2(m) && MIN_HASH_SIZE <= m <= MAX_HASH_SIZE
  {
    if n > 0 {
      WordPowers();
      DoubleFits(n, MAX_HASH_SIZE);
    }
  }

  /** Makes room at slot `q` by moving the occupied run one slot on, across the end of the table if need be. */
  method ShiftAndStore(a: array<Slot>, q: nat, s: Slot) returns (ghost c: nat)
    requires q < a.Length && Clean(a[..]) && EMPTY in a[..]
    modifies a
    ensures c < a.Length && FirstEmptyFrom(old(a[..]), q, c) && Inserted(old(a[..]), q, c, s, a[..])
  {
    ghost var t := a[..];
    if a[q].hash == 0 {
      c := q;
    } else {
      var cur := NextEmpty(a, q);
      c := cur;
      ShiftRun(a, q, cur);
    }
    a[q] := s;
    assert forall j :: 0 <= j < |t| ==> a[..][j] == ShiftedSlot(t, q, c, s, j);
  }

  /** Moves the run from `q` up to the empty slot `cur` one slot on: one memmove, or two around the end of the table. */
  method ShiftRun(a: array<Slot>, q: nat, cur: nat)
    requires q < a.Length && cur < a.Length && cur != q
    modifies a
    ensures forall j :: 0 <= j < a.Length && j != q ==> a[j] == ShiftedSlot(old(a[..]), q, cur, EMPTY, j)
  {
    ghost var t := a[..];
    if cur < q {
      ShiftAround(a, q, cur);
    } else {
      MoveOn(a, q, cur);
    }
    forall j | 0 <= j < a.Length && j != q
      ensures a[j] == ShiftedSlot(t, q, cur, EMPTY, j)
    {
      ShiftedSlotIs(t, q, cur, j);
    }
  }

  method ShiftAround(a: array<Slot>, q: nat, cur: nat)
    requires cur < q < a.Length
    modifies a
    ensures forall j :: 0 < j < a.Length ==> a[j] == if j <= cur || q < j then old(a[j - 1]) else old(a[j])
    ensures a[0] == old(a[a.Length - 1])
  {
    MoveOn(a, 0, cur);
    a[0] := a[a.Length - 1];
    MoveOn(a, q, a.Length - 1);
  }

  lemma ShiftedSlotIs(t: Table, q: nat, c: nat, j: nat)
    requires q < |t| && c < |t| && j < |t| && j != q
    ensures ShiftedSlot(t, q, c, EMPTY, j) ==
            if q <= c then (if q < j <= c then t[j - 1] else t[j])
            else if j == 0 then t[|t| - 1]
            else if j <= c || q < j then t[j - 1]
            else t[j]
  {
  }

  method NextEmpty(a: array<Slot>, q: nat) returns (c: nat)
    requires q < a.Length && a[q].hash != 0 && Clean(a[..]) && EMPTY in a[..]
    ensures c < a.Length && FirstEmptyFrom(a[..], q, c)
  {
    ghost var e :| 0 <= e < a.Length && a[..][e] == EMPTY;
    c := q;
    while a[c].hash != 0
      invariant c < a.Length && Probing(a[..], q, c, e)
      decreases a.Length - Dist(q, c, a.Length)
    {
      ProbeStep(a[..], q, c, e);
      c := if c + 1 == a.Length then 0 else c + 1;
    }
    assert a[..][c] == EMPTY;
  }

  /** The bytes that the comparison must find at an address: those of the key, or, for an empty prefix, behind a zero. */
  function Wanted(prefix: Option<Key>, pre: Key, key: Key): Key {
    if prefix.Some? && pre == [] then [0] + (key + [0]) else key + [0]
  }

  ghost predicate SlotAgrees(s: Slot, pool: Pools, wanted: Key, hash: nat, accepted: set<Addr>)
    requires pool.Valid()
    reads pool, pool.repr
  {
    && s.name.block < |pool.blocks|
    && (s.name in accepted <==> s.hash == hash && pool.Shows(s.name.block, s.name.offset, wanted))
  }

  ghost predicate Agrees(t: Table, pool: Pools, wanted: Key, hash: nat, accepted: set<Addr>)
    requires pool.Valid()
    reads pool, pool.repr
  {
    forall j :: 0 <= j < |t| && t[j].hash != 0 ==> SlotAgrees(t[j], pool, wanted, hash, accepted)
  }

  /** Compares a key with what lies at `a`: strncmp and the terminator, or the walk of xmlStrQEqual. */
  method Compare(pool: Pools, prefix: Option<Key>, pre: Key, name: Key, key: Key, a: Addr) returns (same: bool)
    requires pool.Valid() && a.block < |pool.blocks| && Parts(prefix, pre, name, key)
    ensures same == pool.Shows(a.block, a.offset, Wanted(prefix, pre, key))
  {
    if prefix.None? {
      same := pool.SameString(a, key);
      pool.SameStringShows(a, key);
    } else {
      ghost var len := |key| - |pre| - 1;
      same := pool.QEqual(prefix.value, name, a, |pre|, len);
      QWordMeans(pre, name[..len], key);
    }
  }

  /** The probe loop. */
  method FindIn(a: array<Slot>, pool: Pools, prefix: Option<Key>, pre: Key, name: Key, key: Key, hash: nat, ghost accepted: set<Addr>)
    returns (found: bool, idx: nat, ghost displ: nat)
    requires RobinHood.Valid(a[..]) && pool.Valid() && Parts(prefix, pre, name, key)
    requires Agrees(a[..], pool, Wanted(prefix, pre, key), hash, accepted)
    ensures idx < a.Length
    ensures found ==> a[idx].hash == hash && a[idx].name in accepted
    ensures !found ==> NoneIn(a[..], accepted)
    ensures !found ==> Belongs(a[..], Home(hash, a.Length), displ, idx)
  {
    var n := a.Length;
    var d := 0;
    idx := Home(hash, n);
    ghost var t, home := a[..], idx;
    while DisplacedBy(a[idx], idx, n, d)
      invariant Searching(t, home, accepted, d, idx)
      decreases n - d
    {
      assert SlotAgrees(t[idx], pool, Wanted(prefix, pre, key), hash, accepted);
      var same := MatchSlot(pool, prefix, pre, name, key, hash, a[idx], accepted);
      if same {
        return true, idx, d;
      }
      SearchStep(t, home, accepted, d, idx);
      d, idx := d + 1, if idx + 1 == n then 0 else idx + 1;
    }
    SlotsUnderHash(t, pool, Wanted(prefix, pre, key), hash, accepted);
    NothingMissed(t, home, hash, accepted, d, idx);
    SearchEnds(t, home, accepted, d, idx);
    return false, idx, d;
  }

  /** Whether a slot is accepted: the hashes are compared first. */
  method MatchSlot(pool: Pools, prefix: Option<Key>, pre: Key, name: Key, key: Key, hash: nat, s: Slot, ghost accepted: set<Addr>)
    returns (same: bool)
    requires pool.Valid() && Parts(prefix, pre, name, key)
    requires SlotAgrees(s, pool, Wanted(prefix, pre, key), hash, accepted)
    ensures same <==> s.name in accepted
    ensures same ==> s.hash == hash
  {
    same := false;
    if s.hash == hash {
      same := Compare(pool, prefix, pre, name, key, s.name);
    }
  }

  lemma SlotsUnderHash(t: Table, pool: Pools, wanted: Key, hash: nat, accepted: set<Addr>)
    requires pool.Valid() && Agrees(t, pool, wanted, hash, accepted)
    ensures forall j :: 0 <= j < |t| && t[j].hash != 0 && t[j].name in accepted ==> t[j].hash == hash
  {
    forall j | 0 <= j < |t| && t[j].hash != 0 && t[j].name in accepted
      ensures t[j].hash == hash
    {
      assert SlotAgrees(t[j], pool, wanted, hash, accepted);
    }
  }

  /** The search repeated after growth, for the place of a key known to be absent. */
  method FindPlace(a: array<Slot>, hash: nat) returns (idx: nat, ghost displ: nat)
    requires RobinHood.Valid(a[..])
    ensures idx < a.Length && Belongs(a[..], Home(hash, a.Length), displ, idx)
  {
    var n := a.Length;
    var d := 0;
    idx := Home(hash, n);
    ghost var home := idx;
    while DisplacedBy(a[idx], idx, n, d)
      invariant Searching(a[..], home, {}, d, idx)
      decreases n - d
    {
      SearchStep(a[..], home, {}, d, idx);
      d, idx := d + 1, if idx + 1 == n then 0 else idx + 1;
    }
    SearchEnds(a[..], home, {}, d, idx);
    displ := d;
  }

  class Dict {
    var table: array<Slot>
    var nbElems: nat
    const pool: Pools
    const hs: Hasher
    ghost var interned: Interned
    /** The contents of the table. */
    ghost var slots: Table

    ghost predicate Valid()
      reads this, table, pool, pool.repr
    {
      && pool.Valid()
      && (table.Length > 0 ==> MIN_HASH_SIZE <= table.Length <= MAX_HASH_SIZE && IsPow2(table.Length))
      && table[..] == slots && Inv(slots, nbElems, interned, hs, pool.contents)
    }

    constructor (hs: Hasher, limit: nat, beyond: (nat, nat) -> Byte)
      ensures Valid() && interned == map[] && fresh(table) && fresh(pool)
      ensures this.hs == hs && pool.limit == limit && pool.blocks == [] && pool.repr == {} && table.Length == 0
    {
      table := new Slot[0];
      nbElems := 0;
      this.hs := hs;
      interned, slots := map[], [];
      pool := new Pools(limit, beyond);
    }

    /** Empty strings under the key's hash with the bytes of the key right behind their terminator. */
    ghost function Misread(key: Key): set<Addr>
      requires Valid()
      reads this, table, pool, pool.repr
    {
      set a | a in interned && interned[a] == [] && Hash(hs, []) == Hash(hs, key)
              && pool.Shows(a.block, a.offset + 1, key + [0])
    }

    /** The request a call makes, in the state it is made in. */
    ghost function Asked(prefix: Option<Key>, key: Key, update: bool): (q: Request)
      requires Valid() && (EmptyPrefix(prefix) ==> key != [])
      reads this, table, pool, pool.repr
      ensures WellFormed(interned, q)
    {
      Request(prefix, key, update, Misread(key), TooLong(key), NoRoom(key))
    }

    /** With an empty prefix an empty string is accepted that has the key right behind it. */
    lemma BehindEmpty(a: Addr, key: Key)
      requires Valid() && a in interned
      ensures pool.Shows(a.block, a.offset, [0] + (key + [0])) <==>
              interned[a] == [] && pool.Shows(a.block, a.offset + 1, key + [0])
    {
      pool.ShowsStored(a, [], interned[a]);
      pool.ShowsAppend(a.block, a.offset, [0], key + [0]);
      assert [] + [0] == [0];
    }

    /** What the comparison finds in memory decides whether a slot under the key's hash is accepted. */
    lemma SlotsAgree(prefix: Option<Key>, pre: Key, name: Key, key: Key)
      requires Valid() && Parts(prefix, pre, name, key)
      ensures Agrees(slots, pool, Wanted(prefix, pre, key), Hash(hs, key), Accepted(interned, prefix, key, Misread(key)))
    {
      var t := slots;
      forall j | 0 <= j < |t| && t[j].hash != 0
        ensures SlotAgrees(t[j], pool, Wanted(prefix, pre, key), Hash(hs, key), Accepted(interned, prefix, key, Misread(key)))
      {
        SlotIsInterned(t, interned, hs, j);
        var a := t[j].name;
        pool.ShowsStored(a, key, interned[a]);
        BehindEmpty(a, key);
      }
    }

    /**
      Robin Hood search. If no string is accepted, the result is the slot where a new entry for the
      key belongs.
     */
    method FindEntry(prefix: Option<Key>, pre: Key, name: Key, key: Key, hash: nat, ghost accepted: set<Addr>)
      returns (found: bool, idx: nat, ghost displ: nat)
      requires Valid() && table.Length > 0 && hash == Hash(hs, key) && Parts(prefix, pre, name, key)
      requires accepted == Accepted(interned, prefix, key, Misread(key))
      ensures idx < table.Length
      ensures found ==> table[idx].hash == hash && table[idx].name in accepted
      ensures !found ==> accepted == {} && Belongs(slots, Home(hash, |slots|), displ, idx)
    {
      SlotsAgree(prefix, pre, name, key);
      found, idx, displ := FindIn(table, pool, prefix, pre, name, key, hash, accepted);
      if !found {
        AllHaveSlots(slots, interned, hs, accepted);
      }
    }

    /** Doubles the table, or makes the first one. */
    method Grow()
      requires Valid() && table.Length < MAX_HASH_SIZE
      modifies this`table, this`slots
      ensures Valid() && fresh(table)
      ensures table.Length == if old(table.Length) == 0 then MIN_HASH_SIZE else 2 * old(table.Length)
    {
      var u := Doubled(table);
      TableGrows(slots, u[..], nbElems, interned, hs, pool.contents);
      SizeGrows(table.Length, u.Length);
      table, slots := u, u[..];
    }

    /** Stores the entry for a new string at the place found for it. */
    method Insert(idx: nat, ghost displ: nat, ghost key: Key, s: Slot)
      requires Valid() && table.Length > 0 && idx < table.Length && nbElems + 1 <= table.Length / 8 * 7
      requires Belongs(slots, Home(s.hash, |slots|), displ, idx)
      requires s.hash == Hash(hs, key) && s.name !in interned && StoredAt(pool.contents, s.name, key)
      modifies table, this`nbElems, this`interned, this`slots
      ensures Valid() && interned == old(interned)[s.name := key] && unchanged(pool)
    {
      ghost var c := ShiftAndStore(table, idx, s);
      EntryAdded(slots, idx, displ, c, table[..], nbElems, interned, hs, pool.contents, s.name, key);
      nbElems, interned, slots := nbElems + 1, interned[s.name := key], table[..];
    }

    ghost predicate TooLong(key: Key) {
      |key| > INT_MAX / 2 || (pool.limit > 0 && |key| >= pool.limit)
    }

    /** The table is at its fill limit: one more entry needs growth. */
    predicate Full()
      reads this
    {
      nbElems + 1 > table.Length / 8 * 7
    }

    /** Growth or the pool limit stands in the way of one more string. */
    ghost predicate NoRoom(key: Key)
      reads this, pool`contents, pool`sizes
    {
      (Full() && table.Length >= MAX_HASH_SIZE) || pool.Spent(|key|)
    }

    /** Grows a full table and finds the place of a key known to be absent. */
    method MakeRoom(hash: nat, at: nat, ghost at': nat) returns (ok: bool, idx: nat, ghost displ: nat)
      requires Valid()
      requires table.Length > 0 ==> at < table.Length && Belongs(slots, Home(hash, |slots|), at', at)
      modifies this`table, this`slots
      ensures Valid() && (table == old(table) || fresh(table))
      ensures ok <==> !(old(Full()) && old(table.Length) >= MAX_HASH_SIZE)
      ensures ok ==> idx < table.Length && !Full() && Belongs(slots, Home(hash, |slots|), displ, idx)
    {
      if !Full() {
        return true, at, at';
      }
      if table.Length >= MAX_HASH_SIZE {
        return false, 0, 0;
      }
      Grow();
      ok := true;
      idx, displ := FindPlace(table, hash);
    }

    /** Adds the string of a request to the pool; the table and its meaning stay as they are. */
    method StoreString(prefix: Option<Key>, pre: Key, base: Key, ghost key: Key) returns (a: Option<Addr>)
      requires Valid() && |key| <= INT_MAX / 2 && 0 !in key
      requires key == if prefix.None? then base else pre + [COLON] + base
      modifies pool, pool.repr
      ensures Valid() && fresh(pool.repr - old(pool.repr))
      ensures a.None? <==> old(pool.Spent(|key|))
      ensures a.None? ==> pool.contents == old(pool.contents) && pool.sizes == old(pool.sizes)
      ensures a.Some? ==> a.value !in interned && StoredAt(pool.contents, a.value, key)
      ensures a.Some? ==> Stored(old(pool.contents), old(pool.sizes), a.value, key)
    {
      ghost var v := pool.contents;
      if prefix.None? {
        a := pool.AddString(base);
      } else {
        a := pool.AddQString(pre, base);
      }
      assert table[..] == slots;
      if a.Some? {
        AppendedStores(v, pool.contents, a.value, key);
        PoolGrows(slots, nbElems, interned, hs, v, pool.contents);
        NewAddress(interned, v, pool.contents, a.value, key);
      }
    }

    /** Adds the string of a request to the pool and to the table. */
    method Add(prefix: Option<Key>, pre: Key, base: Key, ghost key: Key, hash: nat, idx: nat, ghost displ: nat)
      returns (r: Option<Slot>)
      requires Valid() && idx < table.Length && !Full() && hash == Hash(hs, key)
      requires Belongs(slots, Home(hash, |slots|), displ, idx)
      requires |key| <= INT_MAX / 2 && 0 !in key && key == if prefix.None? then base else pre + [COLON] + base
      modifies table, this`nbElems, this`interned, this`slots, pool, pool.repr
      ensures Valid() && fresh(pool.repr - old(pool.repr))
      ensures r.None? <==> old(pool.Spent(|key|))
      ensures r.None? ==> interned == old(interned)
      ensures r.Some? ==> r.value.hash == hash && r.value.name !in old(interned)
                          && interned == old(interned)[r.value.name := key]
      ensures r.Some? ==> Stored(old(pool.contents), old(pool.sizes), r.value.name, key)
    {
      var a := StoreString(prefix, pre, base, key);
      if a.None? {
        return None;
      }
      var s := Slot(hash, a.value);
      Insert(idx, displ, key, s);
      return Some(s);
    }

    /** The hash of a request and its parts; `ok` is false when the string is too long. */
    method HashRequest(prefix: Option<Key>, name: Key, maxLen: nat)
      returns (ok: bool, hash: nat, pre: Key, base: Key, key: Key)
      requires prefix.Some? ==> 0 in prefix.value && 0 in name
      requires prefix.None? ==> maxLen <= |name| || 0 in name
      ensures key == RequestKey(prefix, name, maxLen) && hash == Hash(hs, key)
      ensures ok <==> !TooLong(key)
      ensures key == if prefix.None? then base else pre + [COLON] + base
      ensures Parts(prefix, pre, name, key)
    {
      pre := [];
      if prefix.None? {
        var len;
        hash, len := HashName(hs, name, maxLen);
        base := name[..len];
        key := base;
        ok := len <= INT_MAX / 2;
      } else {
        var plen, len;
        hash, plen, len := HashQName(hs, prefix.value, name);
        pre, base := prefix.value[..plen], name[..len];
        key := pre + [COLON] + base;
        ok := !(len > INT_MAX / 2 || plen >= INT_MAX / 2 - len);
      }
      if pool.limit > 0 && |key| >= pool.limit {
        ok := false;
      }
    }

    /** Adds the string of a request for which no address is accepted. */
    method AddMissing(prefix: Option<Key>, pre: Key, base: Key, key: Key, hash: nat, at: nat, ghost at': nat)
      returns (r: Option<Slot>)
      requires Valid() && hash == Hash(hs, key)
      requires table.Length > 0 ==> at < table.Length && Belongs(slots, Home(hash, |slots|), at', at)
      requires |key| <= INT_MAX / 2 && 0 !in key && key == if prefix.None? then base else pre + [COLON] + base
      modifies this`table, this`nbElems, this`interned, this`slots, table, pool, pool.repr
      ensures Valid() && (table == old(table) || fresh(table))
      ensures fresh(pool.repr - old(pool.repr))
      ensures r.None? <==> old(NoRoom(key))
      ensures r.None? ==> interned == old(interned)
      ensures r.Some? ==> r.value.hash == hash && r.value.name !in old(interned)
                          && interned == old(interned)[r.value.name := key]
      ensures r.Some? ==> Stored(old(pool.contents), old(pool.sizes), r.value.name, key)
    {
      var ok, idx;
      ghost var displ;
      ok, idx, displ := MakeRoom(hash, at, at');
      r := None;
      if ok {
        r := Add(prefix, pre, base, key, hash, idx, displ);
      }
    }

    method Search(prefix: Option<Key>, pre: Key, name: Key, key: Key, hash: nat, ghost accepted: set<Addr>)
      returns (r: Option<Slot>, idx: nat, ghost displ: nat)
      requires Valid() && hash == Hash(hs, key) && Parts(prefix, pre, name, key)
      requires accepted == Accepted(interned, prefix, key, Misread(key))
      ensures r.Some? <==> accepted != {}
      ensures r.Some? ==> r.value.hash == hash && r.value.name in accepted
      ensures r.None? && table.Length > 0 ==> idx < table.Length && Belongs(slots, Home(hash, |slots|), displ, idx)
    {
      if table.Length == 0 {
        return None, 0, 0;
      }
      var found;
      found, idx, displ := FindEntry(prefix, pre, name, key, hash, accepted);
      r := if found then Some(table[idx]) else None;
    }

    /**
      Looks up a string and, with `update`, adds it when no address is accepted for it. It answers just
      when an address is accepted or the string can be added, and disturbs nothing that is stored.
     */
    method Lookup(prefix: Option<Key>, name: Key, maxLen: nat, update: bool) returns (r: Option<Slot>, ghost q: Request)
      requires Valid()
      requires prefix.Some? ==> 0 in prefix.value && 0 in name
      requires prefix.None? ==> maxLen <= |name| || 0 in name
      modifies this`table, this`nbElems, this`interned, this`slots, table, pool, pool.repr
      ensures Valid() && (table == old(table) || fresh(table)) && fresh(pool.repr - old(pool.repr))
      ensures q == old(Asked(prefix, RequestKey(prefix, name, maxLen), update))
      ensures Outcome(old(interned), interned, q, r)
      ensures Unique(interned) <==> old(Unique(interned)) && !Duplicates(old(interned), q)
      ensures r.Some? ==> r.value.hash == Hash(hs, q.key)
      ensures interned != old(interned) ==> r.Some? && Stored(old(pool.contents), old(pool.sizes), r.value.name, q.key)
    {
      var ok, hash, pre, base, key := HashRequest(prefix, name, maxLen);
      q := Asked(prefix, key, update);
      ghost var m := interned;
      r := None;
      if ok {
        r := LookupKey(prefix, pre, name, base, key, hash, update, q);
      }
      UniqueUnless(m, interned, q, r);
    }

    /** The lookup of a key that is not too long. */
    method LookupKey(prefix: Option<Key>, pre: Key, name: Key, base: Key, key: Key, hash: nat, update: bool, ghost q: Request)
      returns (r: Option<Slot>)
      requires Valid() && !TooLong(key) && hash == Hash(hs, key) && Parts(prefix, pre, name, key)
      requires key == if prefix.None? then base else pre + [COLON] + base
      requires q == Asked(prefix, key, update)
      modifies this`table, this`nbElems, this`interned, this`slots, table, pool, pool.repr
      ensures Valid() && (table == old(table) || fresh(table)) && fresh(pool.repr - old(pool.repr))
      ensures Outcome(old(interned), interned, q, r)
      ensures r.Some? ==> r.value.hash == hash
      ensures interned != old(interned) ==> r.Some? && Stored(old(pool.contents), old(pool.sizes), r.value.name, key)
    {
      ghost var m := interned;
      var idx;
      ghost var displ;
      r, idx, displ := Search(prefix, pre, name, key, hash, Matches(m, q));
      if r.None? && update {
        r := AddMissing(prefix, pre, base, key, hash, idx, displ);
        MissingOutcome(m, interned, q, r);
      } else {
        FoundOutcome(m, q, r);
      }
    }

    /** The pool is as it was in a state with `v` and `sizes`, with the key stored at `a`. */
    ghost predicate Stored(v: View, sizes: seq<nat>, a: Addr, key: Key)
      reads pool`contents, pool`sizes
    {
      PoolStep(v, sizes, pool.contents, pool.sizes, a, key)
    }
  }

  lemma MissingOutcome(m: Interned, m': Interned, q: Request, r: Option<Slot>)
    requires !q.tooLong && q.update && Matches(m, q) == {}
    requires r.None? <==> q.noRoom
    requires r.None? ==> m' == m
    requires r.Some? ==> r.value.name !in m && m' == m[r.value.name := q.key]
    ensures Outcome(m, m', q, r)
  {
  }

  lemma FoundOutcome(m: Interned, q: Request, r: Option<Slot>)
    requires !q.tooLong && (r.None? ==> !q.update)
    requires r.Some? <==> Matches(m, q) != {}
    requires r.Some? ==> r.value.name in Matches(m, q)
    ensures Outcome(m, m, q, r)
  {
  }

  /** `pre` is the prefix's string, and the key is the name, or prefix, colon and name. */
  ghost predicate Parts(prefix: Option<Key>, pre: Key, name: Key, key: Key) {
    && 0 !in key
    && (prefix.Some? ==>
          && IsCString(prefix.value, |pre|) && prefix.value[..|pre|] == pre
          && |key| > |pre| && IsCString(name, |key| - |pre| - 1)
          && key == pre + [COLON] + name[..|key| - |pre| - 1])
  }

  lemma QWordMeans(pre: Key, base: Key, key: Key)
    requires key == pre + [COLON] + base
    ensures QWord(pre, base) == if pre == [] then [0] + (key + [0]) else key + [0]
  {
  }
}
