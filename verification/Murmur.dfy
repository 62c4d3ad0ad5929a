/**
  The 32-bit hash that maps a logic state to a filter index, and why it loses nothing before the
  final reduction: every mixing step can be undone.
 */
module Murmur {
  import opened Bits

  const M: nat := 0x1_0000_0000
  type Word = x: nat | x < M

  /** The low 32 bits of a number: its remainder by 2^32, by repeated subtraction. */
  function Low32(a: nat): (r: Word) {
    if a < M then a else Low32(a - M)
  }

  lemma {:induction false} Low32Is(a: nat)
    ensures Low32(a) == a % M
  {
    if a >= M {
      Low32Is(a - M);
    }
  }

  function Times(x: Word, c: nat): Word { Low32(x * c) }

  function Rotl15(x: Word): Word { x % 0x2_0000 * 0x8000 + x / 0x2_0000 }

  function Rotl13(x: Word): Word { x % 0x8_0000 * 0x2000 + x / 0x8_0000 }

  function XorW(a: Word, b: Word): Word {
    WordXor(a, b);
    Xor(a, b)
  }

  lemma WordXor(a: Word, b: Word)
    ensures Xor(a, b) < M
  {
    WordPowers();
    XorBelow(a, b, M);
  }

  /** Encoding of one 4-byte chunk. */
  function Scramble(k: Word): Word {
    Times(Rotl15(Times(k, 0xcc9e_2d51)), 0x1b87_3593)
  }

  function Stir(a: Word): Word {
    Low32(Times(Rotl13(a), 5) + 0xe654_6b64)
  }

  /** Appending an encoded chunk to the hash. */
  function Mix(h: Word, k: Word): Word {
    Stir(XorW(h, Scramble(k)))
  }

  /** One round of the finalizer: fold the high bits in, then multiply. `inv` undoes the multiplication. */
  datatype Round = Round(shift: nat, mul: nat, inv: nat) {
    function Apply(h: Word): Word {
      Times(XorW(h, Shr(h, shift)), mul)
    }

    predicate Invertible() {
      3 * shift >= 32 && mul * inv % M == 1
    }
  }

  function Rounds(h: Word, rs: seq<Round>): Word
    decreases |rs|
  {
    if rs == [] then h else Rounds(rs[0].Apply(h), rs[1..])
  }

  const FINAL: seq<Round> := [Round(16, 0x85eb_ca6b, 0xa5cb_9243), Round(13, 0xc2b2_ae35, 0x7ed1_b41d), Round(16, 1, 1)]

  function Finalize(h: Word): Word {
    Rounds(h, FINAL)
  }

  // ----- every step is injective -----

  /** A multiplier with an inverse modulo 2^32 can be undone. */
  lemma TimesInjective(x: Word, y: Word, c: nat, inv: nat)
    requires c * inv % M == 1 && Times(x, c) == Times(y, c)
    ensures x == y
  {
    TimesInverse(x, c, inv);
    TimesInverse(y, c, inv);
  }

  lemma Regroup(x: int, y: int, z: int)
    ensures (x * y) * z == x * (y * z)
    ensures (x + y) * z == x * z + y * z
    ensures z * (x - y) == z * x - z * y
    ensures x * y == y * x
  {
  }

  /** If x * c is r modulo m and c * inv is 1, then r * inv is x. */
  lemma UndoProduct(x: int, c: int, inv: int, m: int, q: int, r: int, n: int)
    requires x * c == m * q + r && c * inv == m * n + 1
    ensures r * inv == m * (x * n - q * inv) + x
  {
    Regroup(x, c, inv);
    Regroup(m * q, r, inv);
    Regroup(m, q, inv);
    Regroup(m * n, 1, x);
    Regroup(m, n, x);
    Regroup(x, m * n + 1, 1);
    Regroup(n, x, 1);
    Regroup(x * n, q * inv, m);
  }

  lemma TimesInverse(x: Word, c: nat, inv: nat)
    requires c * inv % M == 1
    ensures Times(Times(x, c), inv) == x
  {
    var r := Times(x, c);
    Low32Is(x * c);
    Low32Is(r * inv);
    var q, n := x * c / M, c * inv / M;
    UndoProduct(x, c, inv, M, q, r, n);
    RemainderIs(r * inv, x * n - q * inv, x);
  }

  lemma RemainderIs(a: nat, q: int, r: nat)
    requires a == M * q + r && r < M
    ensures a % M == r
  {
  }

  lemma Rotl15Injective(x: Word, y: Word)
    requires Rotl15(x) == Rotl15(y)
    ensures x == y
  {
  }

  lemma Rotl13Injective(x: Word, y: Word)
    requires Rotl13(x) == Rotl13(y)
    ensures x == y
  {
  }

  lemma PlusInjective(x: Word, y: Word, n: nat)
    requires Low32(x + n) == Low32(y + n)
    ensures x == y
  {
    Low32Is(x + n);
    Low32Is(y + n);
  }

  lemma {:induction false} ShrVanishes(x: nat, k: nat, m: nat)
    requires x < Pow2(k) && k <= m
    ensures Shr(x, m) == 0
    decreases m
  {
    if k > 0 {
      ShrVanishes(x / 2, k - 1, m - 1);
    } else if m > 0 {
      ShrVanishes(0, 0, m - 1);
    }
  }

  lemma FoldWordInjective(x: Word, y: Word, k: nat)
    requires 3 * k >= 32 && XorW(x, Shr(x, k)) == XorW(y, Shr(y, k))
    ensures x == y
  {
    WordPowers();
    ShrVanishes(x, 32, 3 * k);
    ShrVanishes(y, 32, 3 * k);
    FoldInjective(x, y, k);
  }

  lemma ScrambleInjective(x: Word, y: Word)
    requires Scramble(x) == Scramble(y)
    ensures x == y
  {
    TimesInjective(Rotl15(Times(x, 0xcc9e_2d51)), Rotl15(Times(y, 0xcc9e_2d51)), 0x1b87_3593, 0x56ed_309b);
    Rotl15Injective(Times(x, 0xcc9e_2d51), Times(y, 0xcc9e_2d51));
    TimesInjective(x, y, 0xcc9e_2d51, 0xdee1_3bb1);
  }

  lemma StirInjective(a: Word, a': Word)
    requires Stir(a) == Stir(a')
    ensures a == a'
  {
    PlusInjective(Times(Rotl13(a), 5), Times(Rotl13(a'), 5), 0xe654_6b64);
    TimesInjective(Rotl13(a), Rotl13(a'), 5, 0xcccc_cccd);
    Rotl13Injective(a, a');
  }

  lemma XorRightInjective(h: Word, a: Word, b: Word)
    requires XorW(h, a) == XorW(h, b)
    ensures a == b
  {
    XorCommutes(h, a);
    XorCommutes(h, b);
    XorInjective(a, b, h);
  }

  /** For a fixed chunk, mixing is injective in the hash; for a fixed hash, in the chunk. */
  lemma MixInjective(h: Word, h': Word, k: Word, k': Word)
    requires Mix(h, k) == Mix(h', k')
    ensures h == h' <==> k == k'
  {
    StirInjective(XorW(h, Scramble(k)), XorW(h', Scramble(k')));
    if k == k' {
      XorInjective(h, h', Scramble(k));
    } else if h == h' {
      XorRightInjective(h, Scramble(k), Scramble(k'));
      ScrambleInjective(k, k');
    }
  }

  lemma RoundInjective(h: Word, h': Word, r: Round)
    requires r.Invertible() && r.Apply(h) == r.Apply(h')
    ensures h == h'
  {
    TimesInjective(XorW(h, Shr(h, r.shift)), XorW(h', Shr(h', r.shift)), r.mul, r.inv);
    FoldWordInjective(h, h', r.shift);
  }

  lemma {:induction false} RoundsInjective(h: Word, h': Word, rs: seq<Round>)
    requires (forall r :: r in rs ==> r.Invertible()) && Rounds(h, rs) == Rounds(h', rs)
    ensures h == h'
    decreases |rs|
  {
    if rs != [] {
      RoundsInjective(rs[0].Apply(h), rs[0].Apply(h'), rs[1..]);
      RoundInjective(h, h', rs[0]);
    }
  }

  lemma FinalInvertible()
    ensures forall r :: r in FINAL ==> r.Invertible()
  {
  }

  lemma FinalizeInjective(h: Word, h': Word)
    requires Finalize(h) == Finalize(h')
    ensures h == h'
  {
    FinalInvertible();
    RoundsInjective(h, h', FINAL);
  }

  // ----- the hash of a sequence of chunks -----

  function Body(h: Word, chunks: seq<Word>): Word
    decreases |chunks|
  {
    if chunks == [] then h else Body(Mix(h, chunks[0]), chunks[1..])
  }

  /** The hash before its reduction to a filter index. */
  function Hash(seed: Word, chunks: seq<Word>, len: Word): Word {
    Finalize(XorW(Body(seed, chunks), len))
  }

  lemma {:induction false} BodyInjective(h: Word, h': Word, chunks: seq<Word>)
    requires Body(h, chunks) == Body(h', chunks)
    ensures h == h'
    decreases |chunks|
  {
    if chunks != [] {
      BodyInjective(Mix(h, chunks[0]), Mix(h', chunks[0]), chunks[1..]);
      MixInjective(h, h', chunks[0], chunks[0]);
    }
  }

  lemma {:induction false} BodyAppend(h: Word, a: seq<Word>, b: seq<Word>)
    ensures Body(h, a + b) == Body(Body(h, a), b)
    decreases |a|
  {
    if a == [] {
      assert a + b == b;
    } else {
      assert (a + b)[1..] == a[1..] + b;
      BodyAppend(Mix(h, a[0]), a[1..], b);
    }
  }

  /** Different seeds give different hashes of the same state. */
  lemma HashInjectiveInSeed(seed: Word, seed': Word, chunks: seq<Word>, len: Word)
    requires Hash(seed, chunks, len) == Hash(seed', chunks, len)
    ensures seed == seed'
  {
    var h, h' := Body(seed, chunks), Body(seed', chunks);
    FinalizeInjective(XorW(h, len), XorW(h', len));
    XorInjective(h, h', len);
    BodyInjective(seed, seed', chunks);
  }

  /** Two states that differ in exactly one chunk never collide. */
  lemma HashSeparatesOneChunk(seed: Word, chunks: seq<Word>, i: nat, k: Word, len: Word)
    requires i < |chunks| && k != chunks[i]
    ensures Hash(seed, chunks, len) != Hash(seed, chunks[i := k], len)
  {
    var h, h' := Body(seed, chunks), Body(seed, chunks[i := k]);
    if Hash(seed, chunks, len) == Hash(seed, chunks[i := k], len) {
      FinalizeInjective(XorW(h, len), XorW(h', len));
      XorInjective(h, h', len);
      var pre, post := chunks[..i], chunks[i + 1..];
      var g := Body(seed, pre);
      SplitAt(seed, chunks, i);
      SplitAt(seed, chunks[i := k], i);
      assert chunks[i := k][..i] == pre && chunks[i := k][i + 1..] == post;
      BodyInjective(Mix(g, chunks[i]), Mix(g, k), post);
      MixInjective(g, g, chunks[i], k);
    }
  }

  lemma SplitAt(seed: Word, chunks: seq<Word>, i: nat)
    requires i < |chunks|
    ensures Body(seed, chunks) == Body(Mix(Body(seed, chunks[..i]), chunks[i]), chunks[i + 1..])
  {
    BodyAppend(seed, chunks[..i], chunks[i..]);
    assert chunks == chunks[..i] + chunks[i..];
  }
}
