/** The daemon's Bloom filter: setting the hash indices of a logic state, and counting the ones. */
module Bloom {
  import opened Bits
  import opened Murmur

  // ----- from a logic state to a filter index -----

  /** The `i`-th 4-byte chunk, lowest byte first. */
  function Chunk(l: seq<Byte>, i: nat): Word
    requires 4 * i + 3 < |l|
  {
    l[4 * i] as int + 0x100 * (l[4 * i + 1] as int) + 0x1_0000 * (l[4 * i + 2] as int) + 0x100_0000 * (l[4 * i + 3] as int)
  }

  function Chunks(l: seq<Byte>): (c: seq<Word>)
    ensures |c| == |l| / 4 && forall i :: 0 <= i < |c| ==> c[i] == Chunk(l, i)
  {
    seq(|l| / 4, i requires 0 <= i < |l| / 4 => Chunk(l, i))
  }

  /** The hash loop over the chunks of a logic state whose size is a multiple of 4. */
  method HashOf(lstate: seq<Byte>, seed: Word) returns (h: Word)
    requires |lstate| % 4 == 0 && |lstate| < M
    ensures h == Hash(seed, Chunks(lstate), |lstate|)
  {
    h := seed;
    ghost var cs := Chunks(lstate);
    var n := |lstate| / 4;
    for i := 0 to n
      invariant Body(h, cs[i..]) == Body(seed, cs)
    {
      assert cs[i..][1..] == cs[i + 1..];
      h := Mix(h, Chunk(lstate, i));
    }
    h := Finalize(XorW(h, |lstate|));
  }

  /** The filter index of a logic state for one seed. */
  function Index(lstate: seq<Byte>, seed: Word, bits: nat): (i: nat)
    requires |lstate| < M && bits > 0
    ensures i < bits
  {
    Hash(seed, Chunks(lstate), |lstate|) % bits
  }

  method HashIndex(lstate: seq<Byte>, seed: Word, bits: nat) returns (i: nat)
    requires |lstate| % 4 == 0 && |lstate| < M && bits > 0
    ensures i == Index(lstate, seed, bits)
  {
    var h := HashOf(lstate, seed);
    i := h % bits;
  }

  /** The filter indices of a logic state for the first `hashes` seeds. */
  ghost function IndexSet(lstate: seq<Byte>, hashes: nat, bits: nat): set<nat>
    requires |lstate| < M && hashes < M && bits > 0
  {
    set h | 0 <= h < hashes :: Index(lstate, h, bits)
  }

  lemma IndexSetNext(lstate: seq<Byte>, h: nat, bits: nat)
    requires |lstate| < M && h + 1 < M && bits > 0
    ensures IndexSet(lstate, h + 1, bits) == IndexSet(lstate, h, bits) + {Index(lstate, h, bits)}
  {
  }

  /** The two states differ, and only inside chunk `i`. */
  ghost predicate ApartAt(l: seq<Byte>, l': seq<Byte>, i: nat) {
    |l| == |l'| && 4 * i + 3 < |l| && l != l' && forall j :: 0 <= j < |l| && !(4 * i <= j < 4 * i + 4) ==> l[j] == l'[j]
  }

  /** Two logic states that differ in a single 4-byte chunk never share a hash. */
  lemma StatesOneChunkApart(seed: Word, l: seq<Byte>, l': seq<Byte>, i: nat)
    requires |l| % 4 == 0 && |l| < M && ApartAt(l, l', i)
    ensures Hash(seed, Chunks(l), |l|) != Hash(seed, Chunks(l'), |l|)
  {
    var k := Chunk(l', i);
    ChunkApart(l, l', i);
    assert Chunks(l') == Chunks(l)[i := k] by {
      forall j | 0 <= j < |l| / 4 && j != i
        ensures Chunk(l', j) == Chunk(l, j)
      {
      }
    }
    HashSeparatesOneChunk(seed, Chunks(l), i, k, |l|);
  }

  lemma ChunkBytes(l: seq<Byte>, l': seq<Byte>, i: nat)
    requires 4 * i + 3 < |l| == |l'| && Chunk(l, i) == Chunk(l', i)
    ensures l[4 * i] == l'[4 * i] && l[4 * i + 1] == l'[4 * i + 1]
    ensures l[4 * i + 2] == l'[4 * i + 2] && l[4 * i + 3] == l'[4 * i + 3]
  {
    FourDigits(l[4 * i], l[4 * i + 1], l[4 * i + 2], l[4 * i + 3], l'[4 * i], l'[4 * i + 1], l'[4 * i + 2], l'[4 * i + 3]);
  }

  lemma FourDigits(a: int, b: int, c: int, d: int, a': int, b': int, c': int, d': int)
    requires 0 <= a < 256 && 0 <= b < 256 && 0 <= c < 256 && 0 <= a' < 256 && 0 <= b' < 256 && 0 <= c' < 256
    requires a + 0x100 * b + 0x1_0000 * c + 0x100_0000 * d == a' + 0x100 * b' + 0x1_0000 * c' + 0x100_0000 * d'
    ensures a == a' && b == b' && c == c' && d == d'
  {
    SameDigit(a, a', b + 0x100 * c + 0x1_0000 * d, b' + 0x100 * c' + 0x1_0000 * d');
    SameDigit(b, b', c + 0x100 * d, c' + 0x100 * d');
    SameDigit(c, c', d, d');
  }

  /** Two numbers are equal only if their lowest bytes are, and the rest is. */
  lemma SameDigit(a: int, a': int, rest: int, rest': int)
    requires 0 <= a < 256 && 0 <= a' < 256 && a + 0x100 * rest == a' + 0x100 * rest'
    ensures a == a' && rest == rest'
  {
  }

  lemma ChunkApart(l: seq<Byte>, l': seq<Byte>, i: nat)
    requires ApartAt(l, l', i)
    ensures Chunk(l, i) != Chunk(l', i)
  {
    var j :| 0 <= j < |l| && l[j] != l'[j];
    if Chunk(l, i) == Chunk(l', i) {
      ChunkBytes(l, l', i);
    }
  }

  // ----- the bits -----

  function Mask(k: nat): bv8
    requires k < 8
  {
    match k
    case 0 => 1 case 1 => 2 case 2 => 4 case 3 => 8
    case 4 => 16 case 5 => 32 case 6 => 64 case 7 => 128
  }

  predicate Bit(b: bv8, k: nat)
    requires k < 8
  {
    b & Mask(k) != 0
  }

  lemma SetBit(b: bv8, k: nat, j: nat)
    requires k < 8 && j < 8
    ensures Bit(b | Mask(k), j) <==> Bit(b, j) || j == k
  {
  }

  function ByteBits(b: bv8): (r: seq<bool>)
    ensures |r| == 8
  {
    [Bit(b, 0), Bit(b, 1), Bit(b, 2), Bit(b, 3), Bit(b, 4), Bit(b, 5), Bit(b, 6), Bit(b, 7)]
  }

  /** The bits of a run of bytes, lowest bit first. */
  function Unpack(s: seq<bv8>): (r: seq<bool>)
    ensures |r| == 8 * |s|
  {
    if s == [] then [] else Unpack(s[..|s| - 1]) + ByteBits(s[|s| - 1])
  }

  lemma {:induction false} UnpackAt(s: seq<bv8>, i: nat)
    requires i < 8 * |s|
    ensures Unpack(s)[i] == Bit(s[i / 8], i % 8)
  {
    var m := |s| - 1;
    if i < 8 * m {
      UnpackAt(s[..m], i);
    } else {
      assert i / 8 == m && i % 8 == i - 8 * m;
    }
  }

  lemma {:induction false} UnpackAppend(a: seq<bv8>, b: seq<bv8>)
    ensures Unpack(a + b) == Unpack(a) + Unpack(b)
    decreases |b|
  {
    if b == [] {
      assert a + b == a;
    } else {
      var m := |b| - 1;
      assert (a + b)[..|a + b| - 1] == a + b[..m];
      UnpackAppend(a, b[..m]);
    }
  }

  lemma UnpackPrefix(s: seq<bv8>, n: nat)
    requires n <= |s|
    ensures forall i :: 0 <= i < 8 * n ==> Unpack(s)[i] == Unpack(s[..n])[i]
  {
    UnpackAppend(s[..n], s[n..]);
    assert s == s[..n] + s[n..];
  }

  function CountTrue(bits: seq<bool>): (n: nat) {
    if bits == [] then 0 else CountTrue(bits[..|bits| - 1]) + (if bits[|bits| - 1] then 1 else 0)
  }

  /** The population count of a run of bytes. */
  function PopCount(s: seq<bv8>): (n: nat) { CountTrue(Unpack(s)) }

  function TrueAt(bits: seq<bool>): set<nat> {
    set i | 0 <= i < |bits| && bits[i]
  }

  ghost function BitSet(s: seq<bv8>): set<nat> { TrueAt(Unpack(s)) }

  lemma {:induction false} CountTrueAppend(a: seq<bool>, b: seq<bool>)
    ensures CountTrue(a + b) == CountTrue(a) + CountTrue(b)
    decreases |b|
  {
    if b == [] {
      assert a + b == a;
    } else {
      var m := |b| - 1;
      assert (a + b)[..|a + b| - 1] == a + b[..m];
      CountTrueAppend(a, b[..m]);
    }
  }

  /** Counting ones counts the set bits. */
  lemma {:induction false} CountIsSize(bits: seq<bool>)
    ensures CountTrue(bits) == |TrueAt(bits)|
  {
    if bits == [] {
      assert TrueAt(bits) == {};
    } else {
      var m := |bits| - 1;
      CountIsSize(bits[..m]);
      assert TrueAt(bits) == TrueAt(bits[..m]) + if bits[m] then {m} else {};
    }
  }

  lemma PopCountAppend(a: seq<bv8>, b: seq<bv8>)
    ensures PopCount(a + b) == PopCount(a) + PopCount(b)
  {
    UnpackAppend(a, b);
    CountTrueAppend(Unpack(a), Unpack(b));
  }

  /** The population counts of the first `w` 64-bit words, summed. */
  function WordSum(s: seq<bv8>, w: nat): (n: nat)
    requires 8 * w <= |s|
  {
    if w == 0 then 0 else WordSum(s, w - 1) + PopCount(s[8 * w - 8..8 * w])
  }

  lemma {:induction false} WordSumIs(s: seq<bv8>, w: nat)
    requires 8 * w <= |s|
    ensures WordSum(s, w) == PopCount(s[..8 * w])
  {
    if w > 0 {
      WordSumIs(s, w - 1);
      PopCountAppend(s[..8 * w - 8], s[8 * w - 8..8 * w]);
      assert s[..8 * w] == s[..8 * w - 8] + s[8 * w - 8..8 * w];
    }
  }

  lemma SumIsSize(s: seq<bv8>)
    requires |s| % 8 == 0
    ensures WordSum(s, |s| / 8) == |BitSet(s)|
  {
    WordSumIs(s, |s| / 8);
    assert s[..8 * (|s| / 8)] == s;
    CountIsSize(Unpack(s));
  }

  lemma UnpackSetAt(s: seq<bv8>, idx: nat, i: nat)
    requires idx < 8 * |s| && i < 8 * |s|
    ensures Unpack(s[idx / 8 := s[idx / 8] | Mask(idx % 8)])[i] <==> Unpack(s)[i] || i == idx
  {
    UnpackAt(s, i);
    UnpackAt(s[idx / 8 := s[idx / 8] | Mask(idx % 8)], i);
    SetBit(s[i / 8], idx % 8, i % 8);
  }

  /** Setting a bit of a byte adds its index to the set. */
  lemma UnpackSet(s: seq<bv8>, idx: nat)
    requires idx < 8 * |s|
    ensures BitSet(s[idx / 8 := s[idx / 8] | Mask(idx % 8)]) == BitSet(s) + {idx}
  {
    var t := s[idx / 8 := s[idx / 8] | Mask(idx % 8)];
    forall i | 0 <= i < 8 * |s|
      ensures Unpack(t)[i] <==> Unpack(s)[i] || i == idx
    {
      UnpackSetAt(s, idx, i);
    }
  }

  lemma NothingSet(s: seq<bv8>)
    requires forall i :: 0 <= i < |s| ==> s[i] == 0
    ensures BitSet(s) == {}
  {
    forall i | 0 <= i < 8 * |s|
      ensures !Unpack(s)[i]
    {
      UnpackAt(s, i);
    }
  }

  class Filter {
    const bytes: array<bv8>

    ghost function Bits(): set<nat>
      reads this, bytes
    {
      BitSet(bytes[..])
    }

    constructor (size: nat)
      ensures fresh(bytes) && bytes.Length == size && Bits() == {}
    {
      bytes := new bv8[size](_ => 0);
      new;
      NothingSet(bytes[..]);
    }

    /** Sets one bit; an index outside the filter is refused. */
    method SetByIndex(idx: nat) returns (ok: bool)
      modifies bytes
      ensures ok <==> idx < 8 * bytes.Length
      ensures Bits() == if ok then old(Bits()) + {idx} else old(Bits())
    {
      var byteIdx, bitIdx := idx / 8, idx % 8;
      if byteIdx >= bytes.Length {
        return false;
      }
      ghost var s := bytes[..];
      bytes[byteIdx] := bytes[byteIdx] | Mask(bitIdx);
      UnpackSet(s, idx);
      assert bytes[..] == s[byteIdx := s[byteIdx] | Mask(bitIdx)];
      ok := true;
    }

    /** Counts the ones word by word. */
    method NumOnes() returns (n: nat)
      requires bytes.Length % 8 == 0
      ensures n == |Bits()|
    {
      n := 0;
      var words := bytes.Length / 8;
      for w := 0 to words
        invariant n == WordSum(bytes[..], w)
      {
        n := n + PopCount(bytes[..][8 * w..8 * w + 8]);
      }
      SumIsSize(bytes[..]);
    }

    /** Records a logic state: sets its index for every seed. No index falls outside the filter. */
    method Record(lstate: seq<Byte>, hashes: nat) returns (ok: bool)
      requires |lstate| % 4 == 0 && |lstate| < M && hashes < 256 && bytes.Length > 0
      modifies bytes
      ensures ok
      ensures Bits() == old(Bits()) + IndexSet(lstate, hashes, 8 * bytes.Length)
    {
      ok := true;
      var bits := 8 * bytes.Length;
      for h := 0 to hashes
        invariant ok && Bits() == old(Bits()) + IndexSet(lstate, h, bits)
      {
        IndexSetNext(lstate, h, bits);
        var idx := HashIndex(lstate, h, bits);
        ok := SetByIndex(idx);
      }
    }
  }
}
