/**
  The append-only string pool behind the dictionary: a list of blocks, each written from
  its start; a string's address is fixed when it is added.
 */
module StringPool {
  import opened Bits
  import opened Options
  import opened RobinHood

  const BLOCK_HEADER: int := 48
  const COLON: Byte := 58

  type View = seq<seq<Byte>>

  /** A zero-terminated copy of `s` lies at address `a`. */
  ghost predicate StoredAt(v: View, a: Addr, s: seq<Byte>) {
    && 0 !in s
    && a.block < |v|
    && a.offset + |s| < |v[a.block]|
    && v[a.block][a.offset..a.offset + |s|] == s
    && v[a.block][a.offset + |s|] == 0
  }

  ghost predicate Extends(v: View, v': View) {
    |v| <= |v'| && forall k :: 0 <= k < |v| ==> v[k] <= v'[k]
  }

  /** A stored string survives whatever is appended. */
  lemma StoredStays(v: View, v': View, a: Addr, s: seq<Byte>)
    requires Extends(v, v') && StoredAt(v, a, s)
    ensures StoredAt(v', a, s)
  {
    assert v[a.block] <= v'[a.block];
    assert v'[a.block][..|v[a.block]|] == v[a.block];
  }

  /** `v'` is `v` with `s` and a terminator put at `a`: the end of a block, or the start of a new one. */
  ghost predicate Appended(v: View, v': View, a: Addr, s: seq<Byte>) {
    if a.block < |v| then a.offset == |v[a.block]| && v' == v[a.block := v[a.block] + s + [0]]
    else a == Addr(|v|, 0) && v' == v + [s + [0]]
  }

  lemma AppendedStores(v: View, v': View, a: Addr, s: seq<Byte>)
    requires Appended(v, v', a, s) && 0 !in s
    ensures Extends(v, v') && StoredAt(v', a, s)
  {
    var at := if a.block < |v| then v[a.block] else [];
    assert v'[a.block] == at + s + [0];
    assert v'[a.block][a.offset..a.offset + |s|] == s;
  }

  /** Nothing was stored yet where a string is appended. */
  lemma AppendedIsNew(v: View, v': View, a: Addr, s: seq<Byte>, b: Addr, t: seq<Byte>)
    requires Appended(v, v', a, s) && StoredAt(v, b, t)
    ensures a != b
  {
  }

  /** Some block has more than `len` bytes left, where `sizes` are the sizes of the blocks. */
  ghost predicate RoomIn(v: View, sizes: seq<nat>, len: nat) {
    exists k :: 0 <= k < |v| && k < |sizes| && sizes[k] - |v[k]| > len
  }

  /** How the pool changes when a string is added: a block is added only if none has room. */
  ghost predicate PoolStep(v: View, sizes: seq<nat>, v': View, sizes': seq<nat>, a: Addr, s: seq<Byte>) {
    && Appended(v, v', a, s)
    && if RoomIn(v, sizes, |s|) then a.block < |v| && sizes' == sizes
       else a.block == |v| && |sizes'| == |sizes| + 1 && sizes' [..|sizes|] == sizes && (sizes == [] ==> sizes'[0] >= 1000)
  }

  function Sum(sizes: seq<nat>): (n: nat) { if sizes == [] then 0 else sizes[0] + Sum(sizes[1..]) }

  /**
    Size of the block added for a qualified name of `len` bytes when `largest` is the largest
    block so far. Both computations wrap as the source's do: the 64-bit quadrupling, and the
    32-bit `4 * (namelen + plen + 1)`, which the length guard keeps from wrapping.
   */
  function QBlockSize(largest: nat, len: nat): (size: nat)
    requires 0 < len && 4 * len < 0x1_0000_0000
    ensures size > len && (largest == 0 ==> size >= 1000)
  {
    var size := if largest == 0 then 1000 else largest * 4 % (SIZE_MAX + 1);
    var need := 4 * len % 0x1_0000_0000;
    if size < need then need else size
  }

  class Pools {
    /** Oldest block first; the source links them newest first. */
    var blocks: seq<array<Byte>>
    var free: seq<nat>
    /** Bytes of block space after which no further block is added; 0 for no limit. */
    const limit: nat
    /** What reading behind the end of a block yields. */
    const beyond: (nat, nat) -> Byte
    /** The written part of each block. */
    ghost var contents: View
    /** The size of each block. */
    ghost var sizes: seq<nat>
    /** The blocks. */
    ghost var repr: set<array<Byte>>

    ghost predicate Valid()
      reads this, repr
    {
      && (forall k :: 0 <= k < |blocks| ==> blocks[k] in repr)
      && |free| == |blocks| == |contents| == |sizes|
      && (forall k :: 0 <= k < |blocks| ==>
            free[k] <= blocks[k].Length == sizes[k] && 0 < blocks[k].Length && contents[k] == blocks[k][..free[k]])
      && forall i, j :: 0 <= i < j < |blocks| ==> blocks[i] != blocks[j]
    }

    constructor (limit: nat, beyond: (nat, nat) -> Byte)
      ensures Valid() && contents == [] && sizes == [] && this.limit == limit && blocks == [] && repr == {}
    {
      blocks, free, this.limit, this.beyond := [], [], limit, beyond;
      contents, sizes, repr := [], [], {};
    }

    ghost predicate HasRoom(len: nat)
      reads this`contents, this`sizes
    {
      RoomIn(contents, sizes, len)
    }

    /** No block has room for `len` bytes, and the blocks together already exceed the limit. */
    ghost predicate Spent(len: nat)
      reads this`contents, this`sizes
    {
      !HasRoom(len) && 0 < limit < Sum(sizes)
    }

    /** The scan from the newest block for one with more than `len` bytes left. */
    method FindBlock(len: nat) returns (k: int, size: nat, total: nat)
      requires Valid()
      ensures -1 <= k < |blocks|
      ensures k >= 0 <==> HasRoom(len)
      ensures k >= 0 ==> blocks[k].Length - free[k] > len
      ensures k < 0 ==> total == Sum(sizes) && (size == 0 <==> blocks == [])
    {
      k, size, total := |blocks| - 1, 0, 0;
      while k >= 0
        invariant -1 <= k < |blocks|
        invariant forall i :: k < i < |blocks| ==> blocks[i].Length - free[i] <= len
        invariant total == Sum(sizes[k + 1..])
        invariant size > 0 <==> k < |blocks| - 1
      {
        if blocks[k].Length - free[k] > len {
          assert sizes[k] - |contents[k]| > len;
          return;
        }
        assert sizes[k..][1..] == sizes[k + 1..];
        if blocks[k].Length > size { size := blocks[k].Length; }
        total := total + blocks[k].Length;
        k := k - 1;
      }
      assert sizes[0..] == sizes;
    }

    method NewBlock(size: nat) returns (k: nat)
      requires Valid() && size > 0
      modifies this
      ensures Valid() && k == |old(blocks)| == |blocks| - 1 && fresh(blocks[k]) && repr == old(repr) + {blocks[k]}
      ensures blocks[..k] == old(blocks) && blocks[k].Length == size && free == old(free) + [0]
      ensures contents == old(contents) + [[]] && sizes == old(sizes) + [size]
    {
      var b := new Byte[size];
      k := |blocks|;
      blocks, free, contents, sizes := blocks + [b], free + [0], contents + [[]], sizes + [size];
      repr := repr + {b};
    }

    /** Copy `s` and its terminator to the free end of block `k`. */
    method Append(k: nat, s: seq<Byte>) returns (a: Addr)
      requires Valid() && k < |blocks| && blocks[k].Length - free[k] > |s|
      modifies this`free, this`contents, blocks[k]
      ensures Valid()
      ensures a == Addr(k, |old(contents)[k]|)
      ensures contents == old(contents)[k := old(contents)[k] + s + [0]]
    {
      var b, at := blocks[k], free[k];
      ghost var was := contents[k];
      forall i | 0 <= i < |s| { b[at + i] := s[i]; }
      b[at + |s|] := 0;
      free, contents := free[k := at + |s| + 1], contents[k := was + s + [0]];
      a := Addr(k, at);
      assert b[..at + |s| + 1] == was + s + [0];
    }

    /** Puts `s` into block `k`, or into a new block of the given size when `k` is negative. */
    method Place(k: int, size: nat, s: seq<Byte>) returns (a: Addr)
      requires Valid() && -1 <= k < |blocks| && (k >= 0 <==> HasRoom(|s|))
      requires k >= 0 ==> blocks[k].Length - free[k] > |s|
      requires k < 0 ==> size > |s| && (blocks == [] ==> size >= 1000)
      modifies this, repr
      ensures Valid() && fresh(repr - old(repr))
      ensures PoolStep(old(contents), old(sizes), contents, sizes, a, s)
    {
      ghost var v := contents;
      var at := k;
      if k < 0 {
        at := NewBlock(size);
        a := Append(at, s);
        assert contents == v + [[] + s + [0]] && [] + s + [0] == s + [0];
      } else {
        a := Append(at, s);
      }
    }

    /** Adds a string. It is refused just when no block has room and the limit is passed, or no block is large enough. */
    method AddString(name: seq<Byte>) returns (r: Option<Addr>)
      requires Valid()
      modifies this, repr
      ensures Valid() && fresh(repr - old(repr))
      ensures r.None? ==> contents == old(contents) && sizes == old(sizes)
      ensures r.None? ==> old(Spent(|name|)) || |name| >= (SIZE_MAX - BLOCK_HEADER) / 4
      ensures old(Spent(|name|)) ==> r.None?
      ensures r.Some? ==> PoolStep(old(contents), old(sizes), contents, sizes, r.value, name)
    {
      var k, size, total := FindBlock(|name|);
      if k < 0 {
        if limit > 0 && total > limit {
          return None;
        }
        if size == 0 {
          size := 1000;
        } else if size < (SIZE_MAX - BLOCK_HEADER) / 4 {
          size := size * 4;
        } else {
          size := SIZE_MAX - BLOCK_HEADER;
        }
        if size / 4 < |name| {
          if |name| < (SIZE_MAX - BLOCK_HEADER) / 4 {
            size := 4 * |name|;
          } else {
            return None;
          }
        }
      }
      var a := Place(k, size, name);
      return Some(a);
    }

    /** As AddString, for `prefix:name`. */
    method AddQString(prefix: seq<Byte>, name: seq<Byte>) returns (r: Option<Addr>)
      requires Valid()
      requires 4 * (|prefix| + |name| + 1) < 0x1_0000_0000
      modifies this, repr
      ensures Valid() && fresh(repr - old(repr))
      ensures r.None? ==> contents == old(contents) && sizes == old(sizes)
      ensures r.None? <==> old(Spent(|prefix| + 1 + |name|))
      ensures r.Some? ==> PoolStep(old(contents), old(sizes), contents, sizes, r.value, prefix + [COLON] + name)
    {
      var len := |name| + |prefix| + 1;
      var k, size, total := FindBlock(len);
      if k < 0 {
        if limit > 0 && total > limit {
          return None;
        }
        size := QBlockSize(size, len);
      }
      var a := Place(k, size, prefix + [COLON] + name);
      return Some(a);
    }

    // ----- comparing -----

    /** The byte in memory at offset `o` of block `k`, written or not, in the block or behind it. */
    function Peek(k: nat, o: nat): (b: Byte)
      requires Valid() && k < |blocks|
      reads this, repr
    {
      if o < blocks[k].Length then blocks[k][o] else beyond(k, o)
    }

    /** The bytes in memory from there on are `w`. */
    predicate Shows(k: nat, o: nat, w: seq<Byte>)
      requires Valid() && k < |blocks|
      reads this, repr
    {
      forall i :: 0 <= i < |w| ==> Peek(k, o + i) == w[i]
    }

    lemma ShowsAppend(k: nat, o: nat, u: seq<Byte>, w: seq<Byte>)
      requires Valid() && k < |blocks|
      ensures Shows(k, o, u + w) <==> Shows(k, o, u) && Shows(k, o + |u|, w)
    {
      if Shows(k, o, u + w) {
        assert forall i :: 0 <= i < |u| ==> (u + w)[i] == u[i];
        forall i | 0 <= i < |w| ensures Peek(k, o + |u| + i) == w[i] {
          assert (u + w)[|u| + i] == w[i] && o + (|u| + i) == o + |u| + i;
        }
      }
      if Shows(k, o, u) && Shows(k, o + |u|, w) {
        forall i | 0 <= i < |u + w| ensures Peek(k, o + i) == (u + w)[i] {
          if i >= |u| { assert Peek(k, o + |u| + (i - |u|)) == w[i - |u|]; }
        }
      }
    }

    /** Reading a key and a terminator where a string is stored means that it is that string. */
    lemma ShowsStored(a: Addr, key: seq<Byte>, s: seq<Byte>)
      requires Valid() && StoredAt(contents, a, s) && 0 !in key
      ensures Shows(a.block, a.offset, key + [0]) <==> s == key
    {
      var k, o := a.block, a.offset;
      assert forall i :: 0 <= i < |s| ==> Peek(k, o + i) == s[i] by {
        assert forall i :: 0 <= i < |s| ==> s[i] == contents[k][o..o + |s|][i];
      }
      assert Peek(k, o + |s|) == 0;
      if Shows(k, o, key + [0]) {
        assert forall i :: 0 <= i < |key| ==> Peek(k, o + i) == (key + [0])[i] == key[i];
        assert Peek(k, o + |key|) == (key + [0])[|key|] == 0;
        var i := if |s| < |key| then |s| else |key|;
        assert (s + [0])[i] == Peek(k, o + i) == (key + [0])[i];
      }
    }

    /** What strncmp and a look at the terminator decide. */
    predicate SameString(a: Addr, name: seq<Byte>)
      requires Valid() && a.block < |blocks|
      reads this, repr
    {
      Shows(a.block, a.offset, name) && Peek(a.block, a.offset + |name|) == 0
    }

    lemma SameStringShows(a: Addr, name: seq<Byte>)
      requires Valid() && a.block < |blocks|
      ensures SameString(a, name) <==> Shows(a.block, a.offset, name + [0])
    {
      assert forall i :: 0 <= i < |name| ==> (name + [0])[i] == name[i];
      assert (name + [0])[|name|] == 0;
    }

    lemma SameStringIs(a: Addr, name: seq<Byte>, s: seq<Byte>)
      requires Valid() && StoredAt(contents, a, s) && 0 !in name
      ensures SameString(a, name) <==> s == name
    {
      ShowsStored(a, name, s);
      SameStringShows(a, name);
    }

    /** The byte walk of xmlStrQEqual over `prefix`, a colon and `name`, against what lies at `a`. */
    method QEqual(prefix: seq<Byte>, name: seq<Byte>, a: Addr, ghost plen: nat, ghost len: nat) returns (same: bool)
      requires Valid() && a.block < |blocks| && IsCString(prefix, plen) && IsCString(name, len)
      ensures same == Shows(a.block, a.offset, QWord(prefix[..plen], name[..len]))
    {
      ghost var w := QWord(prefix[..plen], name[..len]);
      ghost var first := if plen == 0 then 1 else plen;
      QWordIs(prefix, plen, name, len);
      var p, o := 0, a.offset;
      while true
        invariant 0 <= p < first && o == a.offset + p
        invariant Shows(a.block, a.offset, w[..p])
        decreases first - p
      {
        if prefix[p] != Peek(a.block, o) { return false; }
        p, o := p + 1, o + 1;
        if prefix[p - 1] == 0 || prefix[p] == 0 { break; }
      }
      if Peek(a.block, o) != COLON { return false; }
      o := o + 1;
      var n := 0;
      while true
        invariant 0 <= n <= len && o == a.offset + first + 1 + n
        invariant Shows(a.block, a.offset, w[..first + 1 + n])
        decreases len - n
      {
        assert w[first + 1 + n] == name[n];
        if name[n] != Peek(a.block, o) { return false; }
        n, o := n + 1, o + 1;
        if name[n - 1] == 0 { break; }
      }
      assert w[..first + 1 + n] == w;
      same := true;
    }
  }

  /** `data` holds a zero-terminated string of length `n`. */
  predicate IsCString(data: seq<Byte>, n: nat) {
    n < |data| && data[n] == 0 && forall i :: 0 <= i < n ==> data[i] != 0
  }

  /**
    What the walk must find: prefix, colon, name and terminator. An empty prefix is compared as its
    terminator, so that the colon is looked for behind the end of the stored string.
   */
  function QWord(pre: seq<Byte>, base: seq<Byte>): (w: seq<Byte>) {
    (if pre == [] then [0] else pre) + [COLON] + base + [0]
  }

  lemma QWordIs(prefix: seq<Byte>, plen: nat, name: seq<Byte>, len: nat)
    requires IsCString(prefix, plen) && IsCString(name, len)
    ensures var w, first := QWord(prefix[..plen], name[..len]), if plen == 0 then 1 else plen;
      && |w| == first + len + 2 && w[first] == COLON
      && (forall i :: 0 <= i < first ==> w[i] == prefix[i])
      && forall i :: first < i < |w| ==> w[i] == name[i - first - 1]
  {
  }
}
