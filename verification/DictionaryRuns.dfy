/** Whole runs of lookups on one dictionary, and the interning contract they keep. */
module DictionaryRuns {
  import opened Bits
  import opened Options
  import opened RobinHood
  import opened StringPool
  import opened DictHash
  import opened Dictionary

  /** With a non-empty prefix a qualified-name lookup is a plain lookup of the joined string. */
  lemma QNameIsPlain(m: Interned, m': Interned, q: Request, name: Key, r: Option<Slot>)
    requires q.prefix.Some? && 0 in q.prefix.value && 0 in name && !EmptyPrefix(q.prefix)
    requires q.key == RequestKey(q.prefix, name, 0)
    ensures RequestKey(None, q.key, |q.key|) == q.key
    ensures Outcome(m, m', q, r) <==> Outcome(m, m', q.(prefix := None), r)
  {
    assert Matches(m, q) == Matches(m, q.(prefix := None));
  }

  // ----- runs -----

  /** `ms` are the states a run of requests `qs` with answers `rs` passes through. */
  ghost predicate IsRun(ms: seq<Interned>, qs: seq<Request>, rs: seq<Option<Slot>>) {
    && |ms| == |qs| + 1 && |rs| == |qs|
    && forall i :: 0 <= i < |qs| ==> StepAt(ms, qs, rs, i)
  }

  ghost predicate StepAt(ms: seq<Interned>, qs: seq<Request>, rs: seq<Option<Slot>>, i: nat)
    requires i < |qs| == |rs| && |ms| == |qs| + 1
  {
    WellFormed(ms[i], qs[i]) && Outcome(ms[i], ms[i + 1], qs[i], rs[i])
  }

  /** An address keeps its string for the rest of the run. */
  lemma {:induction false} StringsStay(ms: seq<Interned>, qs: seq<Request>, rs: seq<Option<Slot>>, i: nat, j: nat, a: Addr)
    requires IsRun(ms, qs, rs) && i <= j < |ms| && a in ms[i]
    ensures a in ms[j] && ms[j][a] == ms[i][a]
  {
    if i < j {
      StringsStay(ms, qs, rs, i, j - 1, a);
      assert StepAt(ms, qs, rs, j - 1);
    }
  }

  ghost predicate NoneDuplicates(ms: seq<Interned>, qs: seq<Request>, k: nat)
    requires k <= |qs| <= |ms|
  {
    forall i :: 0 <= i < k ==> !Duplicates(ms[i], qs[i])
  }

  /** Exactly when strings are still unique after `k` requests. */
  lemma {:induction false} RunIsUnique(ms: seq<Interned>, qs: seq<Request>, rs: seq<Option<Slot>>, k: nat)
    requires IsRun(ms, qs, rs) && k < |ms| && Unique(ms[0])
    ensures Unique(ms[k]) <==> NoneDuplicates(ms, qs, k)
  {
    if k > 0 {
      RunIsUnique(ms, qs, rs, k - 1);
      assert StepAt(ms, qs, rs, k - 1);
      UniqueUnless(ms[k - 1], ms[k], qs[k - 1], rs[k - 1]);
    }
  }

  lemma AnswerStays(ms: seq<Interned>, qs: seq<Request>, rs: seq<Option<Slot>>, i: nat)
    requires IsRun(ms, qs, rs) && i < |qs| && rs[i].Some?
    ensures rs[i].value.name in ms[|qs|]
    ensures ms[|qs|][rs[i].value.name] == if Misreads(qs[i]) then [] else qs[i].key
  {
    assert StepAt(ms, qs, rs, i);
    RightUnless(ms[i], ms[i + 1], qs[i], rs[i]);
    StringsStay(ms, qs, rs, i + 1, |qs|, rs[i].value.name);
  }

  /** Every interned string was put there by an earlier request for it. */
  lemma {:induction false} Origin(ms: seq<Interned>, qs: seq<Request>, rs: seq<Option<Slot>>, k: nat, a: Addr) returns (j: nat)
    requires IsRun(ms, qs, rs) && ms[0] == map[] && k < |ms| && a in ms[k]
    ensures j < k && rs[j].Some? && rs[j].value.name == a && qs[j].key == ms[k][a]
  {
    assert StepAt(ms, qs, rs, k - 1);
    if a in ms[k - 1] {
      j := Origin(ms, qs, rs, k - 1, a);
    } else {
      j := k - 1;
    }
  }

  /** The interning contract: equal addresses for equal strings, and only for those. */
  ghost predicate Interns(qs: seq<Request>, rs: seq<Option<Slot>>)
    requires |qs| == |rs|
  {
    forall i, j :: 0 <= i < |qs| && 0 <= j < |qs| && rs[i].Some? && rs[j].Some? ==>
      (rs[i].value.name == rs[j].value.name <==> qs[i].key == qs[j].key)
  }

  ghost predicate NoneMisread(qs: seq<Request>) {
    forall i :: 0 <= i < |qs| ==> !Misreads(qs[i])
  }

  lemma ContractHolds(ms: seq<Interned>, qs: seq<Request>, rs: seq<Option<Slot>>)
    requires IsRun(ms, qs, rs) && Unique(ms[0])
    requires NoneDuplicates(ms, qs, |qs|) && NoneMisread(qs)
    ensures Interns(qs, rs)
  {
    RunIsUnique(ms, qs, rs, |qs|);
    forall i, j | 0 <= i < |qs| && 0 <= j < |qs| && rs[i].Some? && rs[j].Some?
      ensures rs[i].value.name == rs[j].value.name <==> qs[i].key == qs[j].key
    {
      AnswerStays(ms, qs, rs, i);
      AnswerStays(ms, qs, rs, j);
    }
  }

  lemma ContractFails(ms: seq<Interned>, qs: seq<Request>, rs: seq<Option<Slot>>, i: nat)
    requires IsRun(ms, qs, rs) && ms[0] == map[] && i < |qs|
    requires Duplicates(ms[i], qs[i]) || Misreads(qs[i])
    ensures !Interns(qs, rs)
  {
    assert StepAt(ms, qs, rs, i);
    if Misreads(qs[i]) {
      var j := Origin(ms, qs, rs, i, rs[i].value.name);
      assert rs[i].value.name == rs[j].value.name && qs[i].key != qs[j].key;
    } else {
      var a :| a in ms[i] && ms[i][a] == qs[i].key;
      var j := Origin(ms, qs, rs, i, a);
      assert rs[i].value.name != rs[j].value.name && qs[i].key == qs[j].key;
    }
  }

  /** From an empty dictionary, a run interns if and only if no request duplicates its string and none is misread. */
  lemma InternedAddresses(ms: seq<Interned>, qs: seq<Request>, rs: seq<Option<Slot>>)
    requires IsRun(ms, qs, rs) && ms[0] == map[]
    ensures Interns(qs, rs) <==> NoneDuplicates(ms, qs, |qs|) && NoneMisread(qs)
  {
    if NoneDuplicates(ms, qs, |qs|) && NoneMisread(qs) {
      ContractHolds(ms, qs, rs);
    } else {
      var i :| 0 <= i < |qs| && (Duplicates(ms[i], qs[i]) || Misreads(qs[i]));
      ContractFails(ms, qs, rs, i);
    }
  }

  /** A call of the lookup function: a prefix, a name buffer and a length cut. */
  datatype Call = Call(prefix: Option<Key>, name: Key, maxLen: nat, update: bool) {
    ghost predicate Ok() {
      && (prefix.Some? ==> 0 in prefix.value && 0 in name)
      && (prefix.None? ==> maxLen <= |name| || 0 in name)
    }

    ghost function Key(): Key
      requires Ok()
    {
      RequestKey(prefix, name, maxLen)
    }
  }

  /** The requests are those the calls make. */
  ghost predicate Asks(calls: seq<Call>, qs: seq<Request>) {
    |calls| == |qs| && forall i :: 0 <= i < |qs| ==> AsksFor(calls[i], qs[i])
  }

  ghost predicate AsksFor(c: Call, q: Request) {
    c.Ok() && q.prefix == c.prefix && q.key == c.Key() && q.update == c.update
  }

  lemma AsksGrows(calls: seq<Call>, qs: seq<Request>, q: Request)
    requires calls != [] && Asks(calls[..|calls| - 1], qs) && AsksFor(calls[|calls| - 1], q)
    ensures Asks(calls, qs + [q])
  {
    forall i | 0 <= i < |calls|
      ensures AsksFor(calls[i], (qs + [q])[i])
    {
      if i < |qs| { assert AsksFor(calls[..|calls| - 1][i], qs[i]); }
    }
  }

  lemma RunGrows(ms: seq<Interned>, qs: seq<Request>, rs: seq<Option<Slot>>, m: Interned, q: Request, r: Option<Slot>)
    requires IsRun(ms, qs, rs) && WellFormed(ms[|qs|], q) && Outcome(ms[|qs|], m, q, r)
    ensures IsRun(ms + [m], qs + [q], rs + [r])
  {
    forall i | 0 <= i < |qs + [q]|
      ensures StepAt(ms + [m], qs + [q], rs + [r], i)
    {
      if i < |qs| { assert StepAt(ms, qs, rs, i); }
    }
  }

  method CallOnce(d: Dict, c: Call) returns (r: Option<Slot>, ghost q: Request)
    requires d.Valid() && c.Ok()
    modifies d`table, d`nbElems, d`interned, d`slots, d.table, d.pool, d.pool.repr
    ensures d.Valid() && (d.table == old(d.table) || fresh(d.table)) && fresh(d.pool.repr - old(d.pool.repr))
    ensures AsksFor(c, q) && WellFormed(old(d.interned), q) && Outcome(old(d.interned), d.interned, q, r)
    ensures q.misread == old(d.Misread(c.Key())) && q.tooLong == d.TooLong(c.Key())
  {
    r, q := d.Lookup(c.prefix, c.name, c.maxLen, c.update);
  }

  /** Every sequence of calls on a dictionary is a run, from the state it starts in to the state it ends in. */
  method RunCalls(d: Dict, calls: seq<Call>) returns (rs: seq<Option<Slot>>, ghost ms: seq<Interned>, ghost qs: seq<Request>)
    requires d.Valid() && forall i :: 0 <= i < |calls| ==> calls[i].Ok()
    modifies d`table, d`nbElems, d`interned, d`slots, d.table, d.pool, d.pool.repr
    ensures d.Valid() && (d.table == old(d.table) || fresh(d.table)) && fresh(d.pool.repr - old(d.pool.repr))
    ensures IsRun(ms, qs, rs) && Asks(calls, qs)
    ensures ms[0] == old(d.interned) && ms[|calls|] == d.interned
    decreases |calls|
  {
    if calls == [] {
      return [], [d.interned], [];
    }
    var n := |calls| - 1;
    rs, ms, qs := RunCalls(d, calls[..n]);
    var r;
    ghost var q;
    r, q := CallOnce(d, calls[n]);
    RunGrows(ms, qs, rs, d.interned, q, r);
    AsksGrows(calls, qs, q);
    rs, ms, qs := rs + [r], ms + [d.interned], qs + [q];
  }

  /** Without a limit, nothing short of the largest table stands in the way of another string. */
  lemma RoomForMany(d: Dict, key: Key)
    requires d.Valid() && d.pool.limit == 0 && |d.interned| < 0x7000_0000 - 1 && |key| <= 0x3FFF_FFFF
    ensures !d.TooLong(key) && !d.NoRoom(key)
  {
  }

  // ----- the two failing inputs -----

  /** A dictionary without a limit and with few strings takes another short one. */
  lemma SmallHasRoom(d: Dict, key: Key)
    requires d.Valid() && d.pool.limit == 0 && |d.interned| <= 4 && |key| <= 8
    ensures !d.TooLong(key) && !d.NoRoom(key)
  {
    RoomForMany(d, key);
  }

  /** Adds a short string for which nothing is accepted, and says where it lies. */
  method AddShort(d: Dict, prefix: Option<Key>, name: Key, maxLen: nat, ghost key: Key) returns (r: Option<Slot>)
    requires d.Valid() && d.pool.limit == 0 && |d.interned| <= 4 && |key| <= 8
    requires Call(prefix, name, maxLen, true).Ok() && key == RequestKey(prefix, name, maxLen)
    requires Accepted(d.interned, prefix, key, d.Misread(key)) == {}
    modifies d`table, d`nbElems, d`interned, d`slots, d.table, d.pool, d.pool.repr
    ensures d.Valid() && (d.table == old(d.table) || fresh(d.table)) && fresh(d.pool.repr - old(d.pool.repr))
    ensures r.Some? && r.value.name !in old(d.interned) && d.interned == old(d.interned)[r.value.name := key]
    ensures d.Stored(old(d.pool.contents), old(d.pool.sizes), r.value.name, key)
  {
    SmallHasRoom(d, key);
    ghost var q;
    r, q := d.Lookup(prefix, name, maxLen, true);
  }

  /** The keys of the calls below. */
  lemma ExampleKeys()
    ensures RequestKey(None, [COLON, 97], 2) == [COLON, 97] == RequestKey(Some([0]), [97, 0], 0)
    ensures RequestKey(None, [], 0) == []
  {
  }

  /** On a new dictionary ":a", and then "a" with the empty prefix, are stored at two addresses. */
  method EmptyPrefixDuplicates(hs: Hasher, beyond: (nat, nat) -> Byte) returns (d: Dict, r: Option<Slot>, r': Option<Slot>)
    ensures d.Valid() && r.Some? && r'.Some? && r.value.name != r'.value.name
    ensures r.value.name in d.interned && r'.value.name in d.interned
    ensures d.interned[r.value.name] == d.interned[r'.value.name] == [COLON, 97]
  {
    d := new Dict(hs, 0, beyond);
    ExampleKeys();
    r := AddShort(d, None, [COLON, 97], 2, [COLON, 97]);
    assert |d.interned| == 1;
    r' := AddShort(d, Some([0]), [97, 0], 0, [COLON, 97]);
  }

  /** The string behind an empty one, in the same block, is what the comparison reads on into. */
  lemma ReadsOn(d: Dict, a: Addr, b: Addr, key: Key)
    requires d.Valid() && a in d.interned && b in d.interned && b == Addr(a.block, a.offset + 1)
    requires d.interned[a] == [] && d.interned[b] == key && Hash(d.hs, []) == Hash(d.hs, key)
    ensures a in d.Misread(key)
  {
    d.pool.ShowsStored(b, key, key);
  }

  /** A new dictionary with the empty string and, right behind it, ":a". */
  method StoreTwo(hs: Hasher, beyond: (nat, nat) -> Byte) returns (d: Dict, a: Addr, b: Addr)
    ensures fresh(d) && fresh(d.table) && fresh(d.pool) && fresh(d.pool.repr)
    ensures d.Valid() && d.hs == hs && d.pool.limit == 0
    ensures d.interned == map[a := [], b := [COLON, 97]] && b == Addr(a.block, a.offset + 1)
  {
    d, a := StoreEmpty(hs, beyond);
    b := StoreBehind(d, a);
  }

  method StoreEmpty(hs: Hasher, beyond: (nat, nat) -> Byte) returns (d: Dict, a: Addr)
    ensures fresh(d) && fresh(d.table) && fresh(d.pool) && fresh(d.pool.repr)
    ensures d.Valid() && d.hs == hs && d.pool.limit == 0 && d.interned == map[a := []]
    ensures a == Addr(0, 0) && d.pool.contents == [[0]] && |d.pool.sizes| == 1 && d.pool.sizes[0] >= 1000
  {
    d := new Dict(hs, 0, beyond);
    ExampleKeys();
    var r := AddShort(d, None, [], 0, []);
    a := r.value.name;
    FirstPlace(d.pool.contents, d.pool.sizes, a);
  }

  method StoreBehind(d: Dict, a: Addr) returns (b: Addr)
    requires d.Valid() && d.pool.limit == 0 && d.interned == map[a := []]
    requires a == Addr(0, 0) && d.pool.contents == [[0]] && |d.pool.sizes| == 1 && d.pool.sizes[0] >= 1000
    modifies d`table, d`nbElems, d`interned, d`slots, d.table, d.pool, d.pool.repr
    ensures d.Valid() && (d.table == old(d.table) || fresh(d.table)) && fresh(d.pool.repr - old(d.pool.repr))
    ensures d.interned == map[a := [], b := [COLON, 97]] && b == Addr(0, 1)
  {
    ExampleKeys();
    assert |d.interned| == 1;
    ghost var v, z := d.pool.contents, d.pool.sizes;
    var r := AddShort(d, None, [COLON, 97], 2, [COLON, 97]);
    b := r.value.name;
    NextPlace(v, z, d.pool.contents, d.pool.sizes, b);
  }

  lemma FirstPlace(v: View, sizes: seq<nat>, a: Addr)
    requires PoolStep([], [], v, sizes, a, [])
    ensures a == Addr(0, 0) && v == [[0]] && |sizes| == 1 && sizes[0] >= 1000
  {
    assert [] + [0] == [0];
  }

  lemma NextPlace(v: View, sizes: seq<nat>, v': View, sizes': seq<nat>, b: Addr)
    requires v == [[0]] && |sizes| == 1 && sizes[0] >= 1000 && PoolStep(v, sizes, v', sizes', b, [COLON, 97])
    ensures b == Addr(0, 1)
  {
    assert sizes[0] - |v[0]| > 2;
  }

  /**
    If the empty string and ":a" have one hash, then on a new dictionary, with these two stored in
    turn, "a" with the empty prefix is answered with the empty string.
   */
  method EmptyPrefixMisreads(hs: Hasher, beyond: (nat, nat) -> Byte) returns (d: Dict, a: Addr, r: Option<Slot>)
    requires Hash(hs, []) == Hash(hs, [COLON, 97])
    ensures d.Valid() && a in d.interned && d.interned[a] == [] && r.Some? && r.value.name == a
  {
    var b;
    d, a, b := StoreTwo(hs, beyond);
    ExampleKeys();
    ReadsOn(d, a, b, [COLON, 97]);
    ghost var m := d.interned;
    ghost var q;
    r, q := CallOnce(d, Call(Some([0]), [97, 0], 0, true));
    MisreadAnswer(m, d.interned, q, r, a, b);
  }

  lemma MisreadAnswer(m: Interned, m': Interned, q: Request, r: Option<Slot>, a: Addr, b: Addr)
    requires Outcome(m, m', q, r) && WellFormed(m, q) && m == map[a := [], b := [COLON, 97]] && a != b
    requires EmptyPrefix(q.prefix) && a in q.misread && !q.tooLong
    ensures r.Some? && r.value.name == a && m' == m
  {
  }
}
