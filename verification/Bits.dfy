/** Bytes, machine limits, powers of two and bitwise operations on natural numbers. */
module Bits {

  type Byte = x: int | 0 <= x < 256

  const INT_MAX: nat := 0x7FFF_FFFF
  const SIZE_MAX: nat := 0xFFFF_FFFF_FFFF_FFFF

  /** An ASCII letter in lower case. */
  function Lower(c: char): char {
    if 'A' <= c <= 'Z' then (c as int + 0x20) as char else c
  }

  function LowerAll(s: string): string { if s == "" then "" else [Lower(s[0])] + LowerAll(s[1..]) }

  /** Length of the C string in `data`, cut at `maxLen` bytes. */
  function CLength(data: seq<Byte>, maxLen: nat): (n: nat)
    requires maxLen <= |data| || 0 in data
    ensures n <= |data| && n <= maxLen && 0 !in data[..n]
    ensures n == maxLen || (n < |data| && data[n] == 0)
  {
    if maxLen == 0 || data[0] == 0 then 0
    else
      var n := 1 + CLength(data[1..], maxLen - 1);
      assert data[..n] == [data[0]] + data[1..][..n - 1];
      n
  }

  predicate IsPow2(n: nat) {
    n == 1 || (n > 1 && n % 2 == 0 && IsPow2(n / 2))
  }

  function Pow2(k: nat): (p: nat)
    ensures p > 0
  {
    if k == 0 then 1 else 2 * Pow2(k - 1)
  }

  lemma {:induction false} Pow2IsPow2(k: nat)
    ensures IsPow2(Pow2(k))
  {
    if k > 0 {
      Pow2IsPow2(k - 1);
    }
  }

  lemma {:induction false} Pow2Sum(j: nat, k: nat)
    ensures Pow2(j + k) == Pow2(j) * Pow2(k)
  {
    if j > 0 {
      Pow2Sum(j - 1, k);
    }
  }

  /** The powers of two that bound the map, the hash values and the words. */
  lemma WordPowers()
    ensures Pow2(16) == 0x1_0000 && Pow2(31) == 0x8000_0000 && Pow2(32) == 0x1_0000_0000
    ensures IsPow2(0x1_0000) && IsPow2(0x8000_0000) && IsPow2(0x1_0000_0000)
  {
    Pow2Sum(8, 8);
    Pow2Sum(16, 16);
    Pow2IsPow2(16);
    Pow2IsPow2(31);
    Pow2IsPow2(32);
  }

  /** Bitwise exclusive or. */
  function Xor(a: nat, b: nat): (x: nat)
    decreases a + b
  {
    if a == 0 && b == 0 then 0 else 2 * Xor(a / 2, b / 2) + (a + b) % 2
  }

  lemma XorDigits(a: nat, b: nat)
    ensures Xor(a, b) / 2 == Xor(a / 2, b / 2) && Xor(a, b) % 2 == (a + b) % 2
  {
  }

  lemma {:induction false} XorBelow(a: nat, b: nat, n: nat)
    requires a < n && b < n && IsPow2(n)
    ensures Xor(a, b) < n
  {
    if n > 1 {
      XorBelow(a / 2, b / 2, n / 2);
    }
  }

  lemma {:induction false} XorSelf(a: nat)
    ensures Xor(a, a) == 0
  {
    if a > 0 {
      XorSelf(a / 2);
    }
  }

  lemma {:induction false} XorZero(a: nat)
    ensures Xor(a, 0) == a
  {
    if a > 0 {
      XorZero(a / 2);
    }
  }

  lemma {:induction false} XorCommutes(a: nat, b: nat)
    ensures Xor(a, b) == Xor(b, a)
    decreases a + b
  {
    if a != 0 || b != 0 {
      XorCommutes(a / 2, b / 2);
    }
  }

  lemma XorFromHalves(a: nat, b: nat, c: nat, d: nat)
    requires Xor(a / 2, b / 2) == Xor(c / 2, d / 2) && (a + b) % 2 == (c + d) % 2
    ensures Xor(a, b) == Xor(c, d)
  {
    XorDigits(a, b);
    XorDigits(c, d);
  }

  lemma Parities(a: nat, b: nat, c: nat, x: nat, y: nat)
    requires x % 2 == (a + b) % 2 && y % 2 == (b + c) % 2
    ensures (x + c) % 2 == (a + y) % 2
  {
  }

  lemma AssociateStep(a: nat, b: nat, c: nat, x: nat, y: nat)
    requires x / 2 == Xor(a / 2, b / 2) && x % 2 == (a + b) % 2
    requires y / 2 == Xor(b / 2, c / 2) && y % 2 == (b + c) % 2
    requires Xor(x / 2, c / 2) == Xor(a / 2, y / 2)
    ensures Xor(x, c) == Xor(a, y)
  {
    Parities(a, b, c, x, y);
    XorFromHalves(x, c, a, y);
  }

  lemma {:induction false} XorAssociates(a: nat, b: nat, c: nat)
    ensures Xor(Xor(a, b), c) == Xor(a, Xor(b, c))
    decreases a + b + c
  {
    if a != 0 || b != 0 || c != 0 {
      XorDigits(a, b);
      XorDigits(b, c);
      XorAssociates(a / 2, b / 2, c / 2);
      AssociateStep(a, b, c, Xor(a, b), Xor(b, c));
    }
  }

  lemma XorCancels(a: nat, b: nat)
    ensures Xor(Xor(a, b), b) == a
  {
    XorAssociates(a, b, b);
    XorSelf(b);
    XorZero(a);
  }

  lemma XorInjective(a: nat, a': nat, b: nat)
    requires Xor(a, b) == Xor(a', b)
    ensures a == a'
  {
    XorCancels(a, b);
    XorCancels(a', b);
  }

  /** `a` shifted right by `k` bits. */
  function Shr(a: nat, k: nat): (r: nat)
    ensures r <= a
    decreases a, k
  {
    if k == 0 then a else Shr(a / 2, k - 1)
  }

  lemma {:induction false} XorShr(a: nat, b: nat, k: nat)
    ensures Shr(Xor(a, b), k) == Xor(Shr(a, k), Shr(b, k))
    decreases k
  {
    if k > 0 {
      XorDigits(a, b);
      XorShr(a / 2, b / 2, k - 1);
    }
  }

  lemma {:induction false} ShrTwice(a: nat, k: nat, m: nat)
    ensures Shr(Shr(a, k), m) == Shr(a, k + m)
    decreases k
  {
    if k > 0 {
      ShrTwice(a / 2, k - 1, m);
    }
  }

  /** Folding the high bits of a number into its low bits can be undone. */
  lemma FoldTwice(x: nat, k: nat)
    requires Shr(x, 3 * k) == 0
    ensures var y := Xor(x, Shr(x, k)); Xor(Xor(y, Shr(y, k)), Shr(y, 2 * k)) == x
  {
    var h, g := Shr(x, k), Shr(x, 2 * k);
    var y := Xor(x, h);
    XorShr(x, h, k);
    ShrTwice(x, k, k);
    XorShr(x, h, 2 * k);
    ShrTwice(x, k, 2 * k);
    XorZero(g);
    assert Shr(y, k) == Xor(h, g) && Shr(y, 2 * k) == g;
    XorAssociates(x, h, Xor(h, g));
    XorAssociates(h, h, g);
    XorSelf(h);
    XorCommutes(0, g);
    XorCancels(x, g);
  }

  lemma FoldInjective(x: nat, y: nat, k: nat)
    requires Shr(x, 3 * k) == 0 && Shr(y, 3 * k) == 0
    requires Xor(x, Shr(x, k)) == Xor(y, Shr(y, k))
    ensures x == y
  {
    FoldTwice(x, k);
    FoldTwice(y, k);
  }
}
