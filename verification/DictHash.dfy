/** String hashing of the interning dictionary: a fold over the bytes, with the top bit of the result set. */
module DictHash {
  import opened Bits
  import opened StringPool

  type HashState = (nat, nat)

  /** The mixing steps on the two 32-bit halves of the state. Any functions will do. */
  datatype Hasher = Hasher(seed: nat, init: nat -> HashState, update: (HashState, Byte) -> HashState, finish: HashState -> nat)

  function Fold(f: Hasher, s: HashState, data: seq<Byte>): HashState
    decreases |data|
  {
    if data == [] then s else Fold(f, f.update(s, data[0]), data[1..])
  }

  const TOP_BIT: nat := 0x8000_0000

  /** Sets the top bit of a 32-bit value, so that no hash equals the mark of an empty slot. */
  function WithTopBit(h: nat): (r: nat)
    ensures TOP_BIT <= r < 2 * TOP_BIT
  {
    var v := h % (2 * TOP_BIT);
    if v < TOP_BIT then v + TOP_BIT else v
  }

  /** The hash value of a string. */
  function Hash(f: Hasher, key: seq<Byte>): (h: nat)
    ensures TOP_BIT <= h < 2 * TOP_BIT
  {
    WithTopBit(f.finish(Fold(f, f.init(f.seed), key)))
  }

  lemma {:induction false} FoldAppend(f: Hasher, s: HashState, a: seq<Byte>, b: seq<Byte>)
    ensures Fold(f, s, a + b) == Fold(f, Fold(f, s, a), b)
    decreases |a|
  {
    if a == [] {
      assert a + b == b;
    } else {
      assert (a + b)[1..] == a[1..] + b;
      FoldAppend(f, f.update(s, a[0]), a[1..], b);
    }
  }

  lemma FoldSnoc(f: Hasher, s: HashState, a: seq<Byte>, c: Byte)
    ensures Fold(f, s, a + [c]) == f.update(Fold(f, s, a), c)
  {
    FoldAppend(f, s, a, [c]);
  }

  /** Feeds the C string at the start of `data` to the hash state. */
  method HashBytes(f: Hasher, start: HashState, data: seq<Byte>, maxLen: nat) returns (s: HashState, len: nat)
    requires maxLen <= |data| || 0 in data
    ensures len == CLength(data, maxLen) && s == Fold(f, start, data[..len])
  {
    s, len := start, 0;
    while len < maxLen && data[len] != 0
      invariant len <= maxLen && len <= |data|
      invariant maxLen <= |data| || 0 in data[len..]
      invariant CLength(data, maxLen) == len + CLength(data[len..], maxLen - len)
      invariant s == Fold(f, start, data[..len])
      decreases |data| - len
    {
      FoldSnoc(f, start, data[..len], data[len]);
      assert data[..len + 1] == data[..len] + [data[len]];
      assert data[len..][1..] == data[len + 1..];
      s, len := f.update(s, data[len]), len + 1;
    }
  }

  method HashName(f: Hasher, data: seq<Byte>, maxLen: nat) returns (h: nat, len: nat)
    requires maxLen <= |data| || 0 in data
    ensures len == CLength(data, maxLen) && h == Hash(f, data[..len])
  {
    var s;
    s, len := HashBytes(f, f.init(f.seed), data, maxLen);
    h := WithTopBit(f.finish(s));
  }

  /** Hashes `prefix`, a colon and `name` in turn: the hash of the joined string. */
  method HashQName(f: Hasher, prefix: seq<Byte>, name: seq<Byte>) returns (h: nat, plen: nat, len: nat)
    requires 0 in prefix && 0 in name
    ensures plen == CLength(prefix, |prefix|) && len == CLength(name, |name|)
    ensures h == Hash(f, prefix[..plen] + [COLON] + name[..len])
  {
    var s, s';
    s, plen := HashBytes(f, f.init(f.seed), prefix, |prefix|);
    s', len := HashBytes(f, f.update(s, COLON), name, |name|);
    FoldSnoc(f, f.init(f.seed), prefix[..plen], COLON);
    FoldAppend(f, f.init(f.seed), prefix[..plen] + [COLON], name[..len]);
    h := WithTopBit(f.finish(s'));
  }
}
