/**
  The growable byte buffer: five allocation schemes, an IO mode in which the front of the buffer
  slides, and the compatibility fields. Seen from outside it is a queue of bytes.
 */
module Buffer {
  import opened Bits
  import opened Options

  /** No allocation can be larger than the pointer range allows. */
  const MAX_ALLOC: int := 0x7FFF_FFFF_FFFF_FFFF
  const MAX_TEXT: int := 10_000_000
  const BASE_SIZE: int := 4096

  datatype Scheme = DoubleIt | Exact | Bounded | Hybrid | IO

  function Capped(n: nat): (c: nat) { if n < INT_MAX then n else INT_MAX }

  /** Size asked for when `len` more bytes must fit: twice the size, or what is needed and some slack. */
  function GrownSize(size: nat, use: nat, len: nat): (r: nat) {
    if size > len then (if size > SIZE_MAX / 2 then SIZE_MAX else size * 2)
    else (if use + len > SIZE_MAX - 100 then SIZE_MAX else use + len + 100)
  }

  /** The size to grow to, or -1 where growth is refused. */
  function GrowTarget(alloc: Scheme, size: nat, use: nat, len: nat): (r: int)
    requires len <= INT_MAX && use <= size <= MAX_ALLOC && len >= size - use
    ensures r == -1 || use + len < r <= SIZE_MAX
    ensures r == -1 ==> alloc == Bounded && (use + len + 1 >= MAX_TEXT || size >= MAX_TEXT)
    ensures r != -1 ==> r <= GrownSize(size, use, len)
  {
    if len >= SIZE_MAX - use then -1
    else
      var grown := GrownSize(size, use, len);
      if alloc == Bounded then
        if use + len + 1 >= MAX_TEXT || size >= MAX_TEXT then -1
        else if grown >= MAX_TEXT then MAX_TEXT else grown
      else grown
  }

  function WithSlack(size: nat): (r: nat) { if size > SIZE_MAX - 10 then SIZE_MAX else size + 10 }

  /** `from` doubled until it reaches `size`; nothing when doubling would overflow. */
  function DoubledTo(from: nat, size: nat): (r: Option<nat>)
    requires 0 < from
    decreases if size > from then size - from else 0
  {
    if size <= from then Some(from) else if from > SIZE_MAX / 2 then None else DoubledTo(2 * from, size)
  }

  /** `r` is `from` times a power of two. */
  predicate IsDoubling(from: nat, r: nat)
    decreases r
  {
    r == from || (r > 0 && r % 2 == 0 && IsDoubling(from, r / 2))
  }

  /** The result is the least multiple of `from` by a power of two that reaches `size`. */
  lemma {:induction false} DoubledToIs(from: nat, size: nat)
    requires 0 < from <= SIZE_MAX
    ensures var r := DoubledTo(from, size);
      && (r.None? ==> size > SIZE_MAX / 2 + 1)
      && (r.Some? ==> size <= r.value && from <= r.value <= SIZE_MAX && IsDoubling(from, r.value))
      && (r.Some? && r.value != from ==> r.value / 2 < size)
    decreases if size > from then size - from else 0
  {
    if size > from && from <= SIZE_MAX / 2 {
      DoubledToIs(2 * from, size);
      var r := DoubledTo(2 * from, size);
      if r.Some? { HalfDoubling(from, r.value); }
    }
  }

  lemma {:induction false} HalfDoubling(from: nat, r: nat)
    requires 0 < from && IsDoubling(2 * from, r)
    ensures IsDoubling(from, r)
    decreases r
  {
    if r != 2 * from { HalfDoubling(from, r / 2); }
  }

  lemma {:induction false} DoublingSteps(from: nat, r: nat)
    requires IsDoubling(from, r)
    ensures r == from || r == 2 * from || r >= 4 * from
    decreases r
  {
    if r != from { DoublingSteps(from, r / 2); }
  }

  method Doubled(from: nat, size: nat) returns (r: Option<nat>)
    requires 0 < from <= SIZE_MAX
    ensures r == DoubledTo(from, size)
  {
    var n := from;
    while size > n
      invariant 0 < n <= SIZE_MAX && DoubledTo(n, size) == DoubledTo(from, size)
      decreases if size > n then size - n else 0
    {
      if n > SIZE_MAX / 2 {
        return None;
      }
      n := 2 * n;
    }
    r := Some(n);
  }

  /** There is room for a terminator, or nothing is allocated. */
  predicate SizesFit(size: nat, use: nat) { use < size || size == use == 0 }

  /** The new size for a request of `want` bytes, or nothing where doubling overflows. */
  function ResizeSize(alloc: Scheme, size: nat, use: nat, want: nat): (r: Option<nat>)
    requires SizesFit(size, use)
  {
    match alloc
    case IO | DoubleIt => DoubledTo(if size == 0 then WithSlack(want) else size, want)
    case Hybrid => if use < BASE_SIZE then Some(want) else DoubledTo(size, want)
    case Exact | Bounded => Some(WithSlack(want))
  }

  /** No memory, or the text limit, stands in the way of the request. */
  predicate ResizeFails(alloc: Scheme, io: bool, offset: nat, size: nat, use: nat, want: nat)
    requires SizesFit(size, use)
  {
    || (alloc == Bounded && want >= MAX_TEXT)
    || (want >= size &&
        var n := ResizeSize(alloc, size, use, want);
        n.None? || (offset + n.value > MAX_ALLOC && !(io && offset > n.value)))
  }

  /**
    Requests for which the sizes make sense: a block of at least one byte, whose size together with the
    gap in front does not wrap around.
   */
  predicate ResizeSafe(alloc: Scheme, offset: nat, size: nat, use: nat, want: nat)
    requires SizesFit(size, use)
  {
    want <= SIZE_MAX &&
    (want >= size ==>
      var n := ResizeSize(alloc, size, use, want);
      n.None? || (use < n.value && offset + n.value <= SIZE_MAX))
  }

  /**
    The two kinds of request that are not safe: none at all on a hybrid buffer that has no block yet, and
    one whose size wraps around together with the gap of an IO buffer.
   */
  lemma UnsafeRequests()
    ensures !ResizeSafe(Hybrid, 0, 0, 0, 0)
    ensures !ResizeSafe(IO, 0x4000_0000_0000_0000, 0x3FFF_FFFF_FFFF_FFFF, 0, 0xFFFF_FFFF_FFFF_FFF8)
  {
    var n := 0x3FFF_FFFF_FFFF_FFFF;
    assert DoubledTo(4 * n, 0xFFFF_FFFF_FFFF_FFF8) == Some(4 * n);
    assert DoubledTo(2 * n, 0xFFFF_FFFF_FFFF_FFF8) == Some(4 * n);
  }

  lemma ResizeSizeReaches(alloc: Scheme, size: nat, use: nat, want: nat)
    requires SizesFit(size, use) && size <= want <= SIZE_MAX
    ensures var n := ResizeSize(alloc, size, use, want); n.Some? ==> want <= n.value <= SIZE_MAX
  {
    DoubledToIs(if size == 0 then WithSlack(want) else size, want);
  }

  /** What adding `len` bytes asks for is always safe. */
  lemma AddIsSafe(alloc: Scheme, offset: nat, size: nat, use: nat, len: nat)
    requires SizesFit(size, use) && offset + size <= MAX_ALLOC && (size == 0 ==> offset == 0)
    requires size - use <= len <= INT_MAX
    ensures ResizeSafe(alloc, offset, size, use, use + len + 1)
  {
    var want := use + len + 1;
    ResizeSizeReaches(alloc, size, use, want);
    if size > 0 {
      DoubledToIs(size, want);
      var r := DoubledTo(size, want);
      if r.Some? { DoublingSteps(size, r.value); }
    }
  }

  /** Adding fails only for want of memory for twice the need, or at the text limit. */
  lemma FailureCauses(alloc: Scheme, io: bool, offset: nat, size: nat, use: nat, want: nat)
    requires SizesFit(size, use) && 0 < want <= SIZE_MAX && ResizeFails(alloc, io, offset, size, use, want)
    ensures (alloc == Bounded && want >= MAX_TEXT) || offset + 2 * want + 10 > MAX_ALLOC
  {
    if want >= size && size <= SIZE_MAX { DoubledToIs(if size == 0 then WithSlack(want) else size, want); }
  }

  class Buf {
    var present: bool          // content is not null
    var io: bool               // contentIO is not null
    var block: array<Byte>     // the allocation that content points into
    var offset: nat            // content - contentIO
    var use: nat
    var size: nat
    var alloc: Scheme
    var compatUse: nat
    var compatSize: nat
    var error: bool
    /** The bytes in the buffer. */
    ghost var data: seq<Byte>

    /** The sizes fit each other and the block. */
    ghost predicate Shape()
      reads this
    {
      && (if present then use < size && offset + size <= block.Length <= MAX_ALLOC else use == size == offset == 0 && !io)
      && (io ==> alloc == IO) && (!io ==> offset == 0)
    }

    ghost predicate Holds()
      reads this, block
    {
      Shape() && data == if present then block[offset..offset + use] else []
    }

    /** The compatibility fields mirror the sizes. */
    ghost predicate Mirrored()
      reads this
    {
      compatUse == Capped(use) && compatSize == Capped(size)
    }

    ghost predicate Valid()
      reads this, block
    {
      Holds() && Mirrored()
    }

    /** A zero byte follows the contents. */
    ghost predicate Terminated()
      reads this, block
    {
      present && offset + use < block.Length && block[offset + use] == 0
    }

    constructor (size: nat, scheme: Scheme)
      requires size < MAX_ALLOC && scheme != IO
      ensures Valid() && data == [] && !error && alloc == scheme && fresh(block)
      ensures if size > 0 then Terminated() else !present
    {
      var n := if size > 0 then size + 1 else 0;
      present, io := n > 0, false;
      block := new Byte[n](_ => 0);
      offset, use, this.size := 0, 0, n;
      compatUse, compatSize := 0, Capped(n);
      alloc, error, data := scheme, false, [];
    }

    /** Mirrors the sizes into the compatibility fields. */
    method UpdateCompat()
      modifies this`compatUse, this`compatSize
      ensures Mirrored()
    {
      compatSize := if size < INT_MAX then size else INT_MAX;
      compatUse := if use < INT_MAX then use else INT_MAX;
    }

    /** Takes over sizes changed behind the buffer's back. Where the fields mirror the sizes it changes nothing. */
    method CheckCompat()
      modifies this`use, this`size
      ensures size == if compatSize < INT_MAX then compatSize else old(size)
      ensures use == if compatUse < INT_MAX then compatUse else old(use)
      ensures old(Mirrored()) ==> use == old(use) && size == old(size)
      ensures old(Valid()) ==> Valid()
    {
      if size != compatSize && compatSize < INT_MAX { size := compatSize; }
      if use != compatUse && compatUse < INT_MAX { use := compatUse; }
    }

    /** Switching to IO mode makes the current content the base of the sliding window. */
    method SetScheme(scheme: Scheme)
      requires Valid()
      modifies this`alloc, this`io
      ensures Valid()
      ensures alloc == if !error && old(alloc) != IO then scheme else old(alloc)
      ensures !error && old(alloc) != IO ==> (io <==> scheme == IO && present)
    {
      if error || alloc == IO {
        return;
      }
      alloc := scheme;
      if scheme == IO {
        io := present;
      }
    }

    // ----- removing -----

    method Empty()
      requires Valid()
      modifies this`use, this`size, this`offset, this`compatUse, this`compatSize, this`data, block
      ensures Valid() && data == if error then old(data) else []
      ensures !error && present ==> Terminated()
    {
      if error || !present {
        return;
      }
      CheckCompat();
      use, data := 0, [];
      if alloc == IO && io {
        size := size + offset;
        offset := 0;
      }
      block[offset] := 0;
      UpdateCompat();
    }

    /** Moves the `use` bytes at `from` to the start of the block and terminates them. */
    method MoveDown(from: nat)
      requires from + use <= block.Length && use < block.Length
      modifies block
      ensures block[use] == 0 && block[..use] == old(block[from..from + use])
    {
      ghost var was := block[from..from + use];
      forall i | 0 <= i < use { block[i] := block[from + i]; }
      block[use] := 0;
      assert block[..use] == was;
    }

    /** IO mode: the front of the buffer moves on, and the bytes move back once the gap is at least what is left. */
    method ShrinkIO(len: nat)
      requires Holds() && io && 0 < len <= use
      modifies this`use, this`size, this`offset, this`data, block
      ensures Holds() && data == old(data)[len..]
    {
      DropFront(len);
      if offset >= size {
        SlideBack(size + offset);
      }
    }

    method DropFront(len: nat)
      requires Holds() && io && 0 < len <= use
      modifies this`use, this`size, this`offset, this`data
      ensures Holds() && data == old(data)[len..]
    {
      data := data[len..];
      use, offset, size := use - len, offset + len, size - len;
      assert block[offset..offset + use] == data;
    }

    method ShrinkMove(len: nat)
      requires Holds() && present && !io && 0 < len <= use
      modifies this`use, this`data, block
      ensures Holds() && data == old(data)[len..]
    {
      data := data[len..];
      use := use - len;
      assert block[len..len + use] == data;
      MoveDown(len);
    }

    /** Removes `len` bytes from the front. */
    method Shrink(len: nat) returns (removed: nat)
      requires Valid()
      modifies this`use, this`size, this`offset, this`compatUse, this`compatSize, this`data, block
      ensures Valid() && removed == (if error || len > |old(data)| then 0 else len)
      ensures data == old(data)[removed..]
    {
      if error {
        return 0;
      }
      CheckCompat();
      if len == 0 || len > use {
        return 0;
      }
      if alloc == IO && io {
        ShrinkIO(len);
      } else {
        ShrinkMove(len);
      }
      assert Holds();
      UpdateCompat();
      return len;
    }

    // ----- growing -----

    /** Moves the contents to a block in which `grown` bytes are theirs; fails when it cannot be allocated. */
    method GrowBlock(grown: nat) returns (ok: bool)
      requires Holds() && use < grown
      modifies this`block, this`size, this`present
      ensures Holds() && (block == old(block) || fresh(block))
      ensures ok <==> offset + grown <= MAX_ALLOC
      ensures ok ==> present && size == grown
      ensures !ok ==> size == old(size)
    {
      ok := offset + grown <= MAX_ALLOC;
      if !ok {
        return;
      }
      var b := new Byte[offset + grown];
      if present {
        forall i | 0 <= i < offset + use { b[i] := block[i]; }
        assert b[offset..offset + use] == block[offset..offset + use];
      }
      block, present, size := b, true, grown;
    }

    /** Growth proper, when fewer than `len` bytes are free. The size sent to the allocator never overflows. */
    method GrowBy(len: nat) returns (ok: bool)
      requires Valid() && len <= INT_MAX && len >= size - use
      modifies this`block, this`size, this`present, this`compatUse, this`compatSize
      ensures Valid() && (block == old(block) || fresh(block))
      ensures ok ==> size - use > len
      ensures !ok ==> size == old(size)
      ensures ok <==> !old(GrowFails(Sizes(), len))
    {
      var grown := GrowTarget(alloc, size, use, len);
      if grown < 0 {
        return false;
      }
      NoOverflow(offset, size, use, len);
      assert offset + grown <= SIZE_MAX;
      ok := GrowBlock(grown);
      UpdateCompat();
    }

    /**
      Makes room for `len` more bytes. It gives up only when the grown block cannot be allocated
      or, in bounded mode, would reach the text limit; otherwise at least `len` bytes are free.
     */
    method GrowInternal(len: nat) returns (room: nat)
      requires Valid() && len <= INT_MAX
      modifies this`block, this`use, this`size, this`present, this`compatUse, this`compatSize, this`error
      ensures Valid() && (block == old(block) || fresh(block))
      ensures error <==> old(error || GrowFails(Sizes(), len))
      ensures !error ==> size - use > len && room == size - use - 1
      ensures error ==> room == 0 && size == old(size)
    {
      if error {
        return 0;
      }
      CheckCompat();
      assert Sizes() == old(Sizes());
      if len >= size - use {
        var ok := GrowBy(len);
        error := !ok;
      }
      return if error then 0 else size - use - 1;
    }

    // ----- adding -----

    method ResizeTarget(want: nat) returns (r: Option<nat>)
      requires Shape() && size <= want <= SIZE_MAX
      ensures r == ResizeSize(alloc, size, use, want)
    {
      if alloc == IO || alloc == DoubleIt {
        r := Doubled(if size == 0 then WithSlack(want) else size, want);
      } else if alloc == Hybrid {
        if use < BASE_SIZE {
          return Some(want);
        }
        r := Doubled(size, want);
      } else {
        r := Some(WithSlack(want));
      }
    }

    /** IO mode: the bytes move back to the base of the block. */
    method SlideBack(newSize: nat)
      requires Holds() && io && use < newSize <= offset + size
      modifies this`offset, this`size, block
      ensures Holds() && size == newSize
    {
      assert block[offset..offset + use] == data;
      MoveDown(offset);
      offset, size := 0, newSize;
    }

    /** Gives the buffer the size `newSize`, by sliding back or by reallocating. */
    method Relocate(newSize: nat) returns (ok: bool)
      requires Holds() && use < newSize
      modifies this`block, this`size, this`offset, this`present, this`compatUse, this`compatSize, block
      ensures Holds() && (block == old(block) || fresh(block))
      ensures ok ==> Mirrored() && present && size == newSize
      ensures ok <==> old(offset + newSize <= MAX_ALLOC || (io && offset > newSize))
      ensures !ok ==> size == old(size) && offset == old(offset) && unchanged(this`compatUse, this`compatSize)
    {
      if io && offset > newSize {
        SlideBack(newSize);
      } else {
        ok := GrowBlock(newSize);
        if !ok {
          return;
        }
      }
      UpdateCompat();
      ok := true;
    }

    method ResizeUp(want: nat) returns (ok: bool)
      requires Valid() && want >= size && ResizeSafe(alloc, offset, size, use, want)
      modifies this`block, this`size, this`offset, this`present, this`compatUse, this`compatSize, block
      ensures Valid() && (block == old(block) || fresh(block))
      ensures ok ==> present && size >= want
      ensures var n := old(ResizeSize(alloc, size, use, want));
        ok <==> n.Some? && old(offset + n.value <= MAX_ALLOC || (io && offset > n.value))
    {
      ResizeSizeReaches(alloc, size, use, want);
      var newSize := ResizeTarget(want);
      ok := newSize.Some?;
      if ok {
        ok := Relocate(newSize.value);
      }
    }

    /** Makes the buffer's size at least `want`, without touching its contents. */
    method Resize(want: nat) returns (ok: bool)
      requires Valid() && !error && ResizeSafe(alloc, offset, size, use, want)
      modifies this`block, this`use, this`size, this`offset, this`present, this`compatUse, this`compatSize, this`error, block
      ensures Valid() && (block == old(block) || fresh(block))
      ensures ok <==> !error
      ensures error <==> old(ResizeFails(alloc, io, offset, size, use, want))
      ensures ok && want >= old(size) ==> present && size >= want
    {
      CheckCompat();
      if alloc == Bounded && want >= MAX_TEXT {
        error := true;
        return false;
      }
      if want < size {
        return true;
      }
      ok := ResizeUp(want);
      error := !ok;
    }

    /** Copies `s` into the block. */
    method PutAt(at: nat, s: seq<Byte>)
      requires at + |s| <= block.Length
      modifies block
      ensures block[at..at + |s|] == s && block[..at] == old(block[..at])
    {
      ghost var before := block[..at];
      forall i | 0 <= i < |s| { block[at + i] := s[i]; }
      assert block[..at] == before;
    }

    /** Puts `s` behind the contents and terminates them. */
    method Write(s: seq<Byte>)
      requires Holds() && present && |s| < size - use
      modifies this`use, this`data, this`compatUse, this`compatSize, block
      ensures Valid() && data == old(data) + s && Terminated()
    {
      assert block[..offset + use][offset..] == data;
      PutAt(offset + use, s);
      assert block[offset..offset + use] == block[..offset + use][offset..];
      TakeIn(|s|);
    }

    /** Terminates `len` more bytes of what lies behind the contents. */
    method TakeIn(len: nat)
      requires Holds() && present && len < size - use
      modifies this`use, this`data, this`compatUse, this`compatSize, block
      ensures Valid() && Terminated()
      ensures data == old(data) + old(block[offset + use..offset + use + len])
    {
      data := data + block[offset + use..offset + use + len];
      use := use + len;
      block[offset + use] := 0;
      assert block[offset..offset + use] == data;
      UpdateCompat();
    }

    /** Room for `len` more bytes and a terminator, if it can be had. */
    method Secure(len: nat) returns (ok: bool)
      requires Valid() && !error && 0 < len <= INT_MAX
      modifies this`block, this`use, this`size, this`offset, this`present, this`compatUse, this`compatSize, this`error, block
      ensures Valid() && (block == old(block) || fresh(block))
      ensures ok <==> !error
      ensures error <==> old(AddFails(Sizes(), len))
      ensures ok ==> present && len < size - use
    {
      if len < size - use {
        return true;
      }
      AddIsSafe(alloc, offset, size, use, len);
      var need := use + len + 1;
      if alloc == Bounded && need >= MAX_TEXT {
        error := true;
        return false;
      }
      ok := Resize(need);
    }

    /** Appends a string, unless room for it cannot be had; then the contents stay as they are. */
    method Add(s: seq<Byte>) returns (ret: int)
      requires Valid() && |s| <= INT_MAX
      modifies this`block, this`use, this`size, this`offset, this`present, this`compatUse, this`compatSize, this`error, this`data, block
      ensures Valid() && (block == old(block) || fresh(block))
      ensures error <==> old(error || AddFails(Sizes(), |s|))
      ensures ret == 0 <==> !error
      ensures data == if error then old(data) else old(data) + s
      ensures ret == 0 && s != [] ==> Terminated()
    {
      if error {
        return -1;
      }
      CheckCompat();
      if |s| == 0 {
        return 0;
      }
      var ok := Secure(|s|);
      if !ok {
        return if alloc == Bounded then -1 else 2;
      }
      Write(s);
      return 0;
    }

    /** Appends a zero-terminated string. One longer than an int can tell counts as empty. */
    method Cat(str: seq<Byte>) returns (ret: int)
      requires Valid() && 0 in str
      modifies this`block, this`use, this`size, this`offset, this`present, this`compatUse, this`compatSize, this`error, this`data, block
      ensures Valid() && (block == old(block) || fresh(block))
      ensures error <==> old(error || AddFails(Sizes(), |Text(str)|))
      ensures ret == 0 <==> !error
      ensures data == if error then old(data) else old(data) + Text(str)
    {
      if error {
        return -1;
      }
      CheckCompat();
      ret := Add(Text(str));
    }

    /** Takes in bytes the caller has already put behind the contents. */
    method AddLen(len: nat) returns (ret: int)
      requires Valid()
      modifies this`use, this`size, this`data, this`compatUse, this`compatSize, block
      ensures Valid()
      ensures ret == if error || len >= old(size - use) then -1 else 0
      ensures ret == 0 ==> data == old(data) + old(block[offset + use..offset + use + len]) && Terminated()
      ensures ret != 0 ==> data == old(data)
    {
      if error {
        return -1;
      }
      CheckCompat();
      if len >= size - use {
        return -1;
      }
      TakeIn(len);
      return 0;
    }

    ghost function Sizes(): SizeInfo
      reads this
    {
      SizeInfo(alloc, io, offset, size, use)
    }

    /** What a caller can see before a call. */
    ghost function Look(): Snap
      requires Holds()
      reads this, block
    {
      Snap(error, Sizes(), data, if present then block[offset + use..offset + size] else [])
    }
  }

  datatype SizeInfo = SizeInfo(alloc: Scheme, io: bool, offset: nat, size: nat, use: nat)

  /** The string that a call with an unknown length appends. */
  function Text(str: seq<Byte>): (s: seq<Byte>)
    requires 0 in str
    ensures |s| <= INT_MAX
  {
    var n := CLength(str, |str|);
    if n > INT_MAX then [] else str[..n]
  }

  /** Room for `len` more bytes and a terminator cannot be had. */
  predicate AddFails(z: SizeInfo, len: nat)
  {
    len > 0 && len >= z.size - z.use && SizesFit(z.size, z.use)
    && ResizeFails(z.alloc, z.io, z.offset, z.size, z.use, z.use + len + 1)
  }

  predicate GrowFails(z: SizeInfo, len: nat)
  {
    len >= z.size - z.use && len <= INT_MAX && z.use <= z.size <= MAX_ALLOC
    && var n := GrowTarget(z.alloc, z.size, z.use, len); n < 0 || z.offset + n > MAX_ALLOC
  }

  /** Twice the size, or the need and some slack, still fits behind the gap of a block that exists. */
  lemma NoOverflow(offset: nat, size: nat, use: nat, len: nat)
    requires use <= size && offset + size <= MAX_ALLOC && len <= INT_MAX
    ensures offset + GrownSize(size, use, len) <= SIZE_MAX
  {
  }

  // ----- any sequence of operations -----

  /** A buffer as it is between operations: its error flag, its sizes, its contents, and the bytes behind them. */
  datatype Snap = Snap(error: bool, sizes: SizeInfo, data: seq<Byte>, spare: seq<Byte>)

  datatype Op = AddOp(s: seq<Byte>) | CatOp(str: seq<Byte>) | ShrinkOp(n: nat) | EmptyOp | GrowOp(n: nat) | AddLenOp(n: nat)
  {
    predicate Ok() {
      (AddOp? ==> |s| <= INT_MAX) && (CatOp? ==> 0 in str) && (GrowOp? ==> n <= INT_MAX)
    }
  }

  /** Exactly when an operation is refused. */
  predicate Refuses(b: Snap, op: Op)
    requires op.Ok()
  {
    b.error ||
    match op
    case AddOp(s) => AddFails(b.sizes, |s|)
    case CatOp(str) => AddFails(b.sizes, |Text(str)|)
    case ShrinkOp(n) => n > |b.data|
    case EmptyOp => false
    case GrowOp(n) => GrowFails(b.sizes, n)
    case AddLenOp(n) => n >= b.sizes.size - b.sizes.use
  }

  /** What an operation makes of the queue of bytes when it is not refused. */
  function Effect(b: Snap, op: Op): (q: seq<Byte>)
    requires op.Ok() && (op.AddLenOp? ==> op.n <= |b.spare|) && (op.ShrinkOp? ==> op.n <= |b.data|)
  {
    match op
    case AddOp(s) => b.data + s
    case CatOp(str) => b.data + Text(str)
    case ShrinkOp(n) => b.data[n..]
    case EmptyOp => []
    case GrowOp(_) => b.data
    case AddLenOp(n) => b.data + b.spare[..n]
  }

  /** The operation acted on the buffer as on a queue of bytes, and was refused just when it had to be. */
  ghost predicate Stepped(b: Snap, op: Op, b': Snap, ret: int)
    requires op.Ok()
  {
    && |b.spare| == b.sizes.size - b.sizes.use
    && (Refuses(b, op) ==> b'.data == b.data)
    && (!Refuses(b, op) ==> (op.ShrinkOp? ==> op.n <= |b.data|) && b'.data == Effect(b, op))
    && (b'.error <==> b.error || (Refuses(b, op) && (op.AddOp? || op.CatOp? || op.GrowOp?)))
    && (op.ShrinkOp? ==> ret == if Refuses(b, op) then 0 else op.n)
    && (op.GrowOp? ==> if Refuses(b, op) then ret == 0 else ret >= op.n)
    && (!op.ShrinkOp? && !op.GrowOp? ==> (ret == 0 <==> !Refuses(b, op)))
  }

  method Run(b: Buf, op: Op) returns (ret: int)
    requires b.Valid() && op.Ok()
    modifies b, b.block
    ensures b.Valid() && (b.block == old(b.block) || fresh(b.block))
    ensures Stepped(old(b.Look()), op, b.Look(), ret)
  {
    if op.AddOp? {
      ret := b.Add(op.s);
    } else if op.CatOp? {
      ret := b.Cat(op.str);
    } else if op.GrowOp? {
      ret := b.GrowInternal(op.n);
    } else if op.ShrinkOp? {
      ret := RunShrink(b, op.n);
    } else if op.EmptyOp? {
      ret := RunEmpty(b);
    } else {
      ret := RunAddLen(b, op.n);
    }
  }

  method RunShrink(b: Buf, n: nat) returns (ret: int)
    requires b.Valid()
    modifies b, b.block
    ensures b.Valid() && b.block == old(b.block)
    ensures Stepped(old(b.Look()), ShrinkOp(n), b.Look(), ret)
  {
    ret := b.Shrink(n);
  }

  method RunEmpty(b: Buf) returns (ret: int)
    requires b.Valid()
    modifies b, b.block
    ensures b.Valid() && b.block == old(b.block)
    ensures Stepped(old(b.Look()), EmptyOp, b.Look(), ret)
  {
    ret := if b.error then -1 else 0;
    b.Empty();
  }

  method RunAddLen(b: Buf, n: nat) returns (ret: int)
    requires b.Valid()
    modifies b, b.block
    ensures b.Valid() && b.block == old(b.block)
    ensures Stepped(old(b.Look()), AddLenOp(n), b.Look(), ret)
  {
    ghost var was := b.Look();
    ret := b.AddLen(n);
    if ret == 0 {
      assert was.spare[..n] == old(b.block[b.offset + b.use..b.offset + b.use + n]);
    }
  }

  /** `bs` are the states that the operations lead through. */
  ghost predicate IsRun(bs: seq<Snap>, ops: seq<Op>, rets: seq<int>) {
    && |bs| == |ops| + 1 && |rets| == |ops|
    && forall i :: 0 <= i < |ops| ==> ops[i].Ok() && Stepped(bs[i], ops[i], bs[i + 1], rets[i])
  }

  lemma RunGrows(bs: seq<Snap>, ops: seq<Op>, rets: seq<int>, b: Snap, op: Op, ret: int)
    requires IsRun(bs, ops, rets) && op.Ok() && Stepped(bs[|ops|], op, b, ret)
    ensures IsRun(bs + [b], ops + [op], rets + [ret])
  {
  }

  /** Whatever operations are applied, in whatever order, the buffer goes through the states of a queue of bytes. */
  method RunAll(b: Buf, ops: seq<Op>) returns (rets: seq<int>, ghost bs: seq<Snap>)
    requires b.Valid()
    requires forall i :: 0 <= i < |ops| ==> ops[i].Ok()
    modifies b, b.block
    ensures b.Valid() && IsRun(bs, ops, rets)
    ensures bs[0] == old(b.Look()) && bs[|ops|] == b.Look()
  {
    rets, bs := [], [b.Look()];
    for i := 0 to |ops|
      invariant b.Valid() && (b.block == old(b.block) || fresh(b.block))
      invariant IsRun(bs, ops[..i], rets) && bs[0] == old(b.Look()) && bs[i] == b.Look()
    {
      var ret := Run(b, ops[i]);
      RunGrows(bs, ops[..i], rets, b.Look(), ops[i], ret);
      assert ops[..i + 1] == ops[..i] + [ops[i]];
      rets, bs := rets + [ret], bs + [b.Look()];
    }
    assert ops[..|ops|] == ops;
  }
}
