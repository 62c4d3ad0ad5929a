/**
  The Robin Hood order of the interning dictionary's open-addressing table, as a
  property of the sequence of slots: what the early-abort search relies on, what the
  shifting insertion keeps, and why growth to twice the size keeps it too.
 */
module RobinHood {
  import opened Bits

  /** Where a string starts: a pool block and an offset into it. */
  datatype Addr = Addr(block: nat, offset: nat)

  /** A table slot. A hash value of 0 marks an unoccupied slot. */
  datatype Slot = Slot(hash: nat, name: Addr)

  const EMPTY: Slot := Slot(0, Addr(0, 0))

  type Table = seq<Slot>

  /** The slot a hash value maps to: the remainder by the table size, by repeated subtraction. */
  function Home(hash: nat, size: nat): (h: nat)
    requires size > 0
    ensures h < size
  {
    if hash < size then hash else Home(hash - size, size)
  }

  /** Bitwise and of two numbers. */
  function And(a: nat, b: nat): nat {
    if a == 0 || b == 0 then 0 else 2 * And(a / 2, b / 2) + (a % 2) * (b % 2)
  }

  lemma {:induction false} HomeHalves(hash: nat, size: nat)
    requires size > 0
    ensures Home(hash, 2 * size) == 2 * Home(hash / 2, size) + hash % 2
  {
    if hash >= 2 * size {
      HomeHalves(hash - 2 * size, size);
    }
  }

  /** Masking with a power of two less one, as the source does, gives the remainder. */
  lemma {:induction false} MaskIsHome(hash: nat, size: nat)
    requires IsPow2(size)
    ensures And(hash, size - 1) == Home(hash, size)
  {
    if size > 1 {
      HomeHalves(hash, size / 2);
      MaskIsHome(hash / 2, size / 2);
    }
  }

  /** A power of two below another leaves room to double. */
  lemma {:induction false} DoubleFits(n: nat, m: nat)
    requires IsPow2(n) && IsPow2(m) && n < m
    ensures 2 * n <= m && IsPow2(2 * n)
  {
    if n > 1 {
      DoubleFits(n / 2, m / 2);
    }
  }

  /** Index `i` of a cyclic table that may have run past the end once. */
  function Wrap(i: nat, size: nat): (w: nat)
    requires i < 2 * size
    ensures w < size
  {
    if i < size then i else i - size
  }

  function Prev(j: nat, size: nat): (p: nat)
    requires j < size
    ensures p < size
  {
    if j == 0 then size - 1 else j - 1
  }

  /** Number of forward steps from slot `from` to slot `j`. */
  function Dist(from: nat, j: nat, size: nat): (d: nat)
    requires from < size && j < size
    ensures d < size && Wrap(from + d, size) == j
  {
    if from <= j then j - from else j - from + size
  }

  /** Displacement of slot `j` from its home; -1 for an empty slot. */
  function Disp(t: Table, j: nat): (d: int)
    requires j < |t|
    ensures -1 <= d < |t|
    ensures d == -1 <==> t[j].hash == 0
  {
    if t[j].hash == 0 then -1 else Dist(Home(t[j].hash, |t|), j, |t|)
  }

  ghost predicate Clean(t: Table) {
    forall j :: 0 <= j < |t| && t[j].hash == 0 ==> t[j] == EMPTY
  }

  /** One step forward never raises the displacement by more than one. */
  ghost predicate StepOk(t: Table, j: nat)
    requires j < |t|
  {
    t[j].hash != 0 ==> Disp(t, j) <= Disp(t, Prev(j, |t|)) + 1
  }

  ghost predicate Ordered(t: Table) {
    forall j :: 0 <= j < |t| ==> StepOk(t, j)
  }

  /** The table invariant: Robin Hood order, and at least one slot to stop a probe. */
  ghost predicate Valid(t: Table) {
    Clean(t) && Ordered(t) && EMPTY in t
  }

  lemma {:induction false} Climb(t: Table, j: nat, k: nat)
    requires Ordered(t) && j < |t| && k < |t|
    ensures Disp(t, Wrap(j + k, |t|)) <= Disp(t, j) + k
  {
    if k > 0 {
      Climb(t, j, k - 1);
      assert StepOk(t, Wrap(j + k, |t|));
    }
  }

  /** No probe sequence crosses an empty slot. */
  lemma BelowEmpty(t: Table, e: nat, j: nat)
    requires Ordered(t) && e < |t| && j < |t| && t[e].hash == 0
    ensures Disp(t, j) <= Dist(e, j, |t|) - 1
  {
    Climb(t, e, Dist(e, j, |t|));
  }

  /**
    Early abort: when the probe for a home slot meets, after `displ` steps, a slot whose
    displacement is below `displ`, no slot from there on holds an entry with that home.
   */
  lemma AbortIsSound(t: Table, home: nat, displ: nat, j: nat)
    requires Ordered(t) && home < |t| && displ < |t| && j < |t|
    requires Disp(t, Wrap(home + displ, |t|)) < displ
    requires t[j].hash != 0 && Home(t[j].hash, |t|) == home
    ensures Dist(home, j, |t|) < displ
  {
    var d := Dist(home, j, |t|);
    if displ <= d {
      assert Wrap(Wrap(home + displ, |t|) + (d - displ), |t|) == j;
      Climb(t, Wrap(home + displ, |t|), d - displ);
    }
  }

  /** The slot where an absent key with home `home` belongs, `displ` steps from home. */
  ghost predicate InsertPoint(t: Table, home: nat, displ: nat)
    requires home < |t| && displ < |t|
  {
    && Disp(t, Wrap(home + displ, |t|)) < displ
    && (displ > 0 ==> Disp(t, Wrap(home + displ - 1, |t|)) >= displ - 1)
  }

  /** Every slot from `q` up to, not including, `c` is occupied, and `c` is empty. */
  ghost predicate FirstEmptyFrom(t: Table, q: nat, c: nat)
    requires q < |t| && c < |t|
  {
    && t[c] == EMPTY
    && forall j :: 0 <= j < |t| && Dist(q, j, |t|) < Dist(q, c, |t|) ==> t[j].hash != 0
  }

  /** The slot that ends up at `j` when `s` enters at `q` and the run up to the empty slot `c` moves on. */
  function ShiftedSlot(t: Table, q: nat, c: nat, s: Slot, j: nat): (r: Slot)
    requires q < |t| && c < |t| && j < |t|
  {
    if j == q then s
    else if Dist(q, j, |t|) <= Dist(q, c, |t|) then t[Prev(j, |t|)]
    else t[j]
  }

  /** `r` is `t` with `s` put at `q` after moving the occupied run from `q` to `c` one slot on. */
  ghost predicate Inserted(t: Table, q: nat, c: nat, s: Slot, r: Table)
    requires q < |t| && c < |t|
  {
    |r| == |t| && forall j :: 0 <= j < |t| ==> r[j] == ShiftedSlot(t, q, c, s, j)
  }

  lemma ConcatBag(a: Table, b: Table, c: Table, d: Table)
    ensures multiset(a + b + c + d) == multiset(a) + multiset(b) + multiset(c) + multiset(d)
  {
  }

  /** Insertion without wrap-around, written as a rearrangement of blocks. */
  lemma InsertedBlocks(t: Table, q: nat, c: nat, s: Slot, r: Table)
    requires q <= c < |t| && Inserted(t, q, c, s, r)
    ensures r == t[..q] + [s] + t[q..c] + t[c + 1..]
  {
  }

  /** Insertion whose run passes the end of the table. */
  lemma InsertedBlocksWrapped(t: Table, q: nat, c: nat, s: Slot, r: Table)
    requires c < q < |t| && Inserted(t, q, c, s, r)
    ensures r == ([t[|t| - 1]] + t[..c]) + t[c + 1..q] + [s] + t[q..|t| - 1]
  {
  }

  lemma SplitBag(t: Table, q: nat, c: nat)
    requires q <= c < |t|
    ensures multiset(t) == multiset(t[..q]) + multiset(t[q..c]) + multiset{t[c]} + multiset(t[c + 1..])
  {
    ConcatBag(t[..q], t[q..c], [t[c]], t[c + 1..]);
    assert t == t[..q] + t[q..c] + [t[c]] + t[c + 1..];
  }

  lemma SplitBagWrapped(t: Table, q: nat, c: nat)
    requires c < q < |t|
    ensures multiset(t) == multiset(t[..c]) + multiset{t[c]} + multiset(t[c + 1..q])
                         + (multiset(t[q..|t| - 1]) + multiset{t[|t| - 1]})
  {
    var m := |t| - 1;
    ConcatBag(t[..c], [t[c]], t[c + 1..q], t[q..m] + [t[m]]);
    assert t == t[..c] + [t[c]] + t[c + 1..q] + (t[q..m] + [t[m]]);
  }

  /** Insertion loses no entry: the empty slot `c` is traded for `s`. */
  lemma InsertedBag(t: Table, q: nat, c: nat, s: Slot, r: Table)
    requires q < |t| && c < |t| && Inserted(t, q, c, s, r)
    ensures multiset(r) == multiset(t) - multiset{t[c]} + multiset{s}
  {
    if q <= c {
      InsertedBlocks(t, q, c, s, r);
      ConcatBag(t[..q], [s], t[q..c], t[c + 1..]);
      SplitBag(t, q, c);
    } else {
      InsertedBlocksWrapped(t, q, c, s, r);
      ConcatBag([t[|t| - 1]] + t[..c], t[c + 1..q], [s], t[q..|t| - 1]);
      SplitBagWrapped(t, q, c);
    }
  }

  /** A shifted entry is displaced by one more than before. */
  lemma ShiftedDisp(t: Table, c: nat, r: Table, j: nat)
    requires Ordered(t) && c < |t| && t[c].hash == 0 && |r| == |t| && j < |t|
    requires r[j] == t[Prev(j, |t|)] && t[Prev(j, |t|)].hash != 0
    ensures Disp(r, j) == Disp(t, Prev(j, |t|)) + 1
  {
    BelowEmpty(t, c, Prev(j, |t|));
  }

  /** Slots of the run before its empty end, seen from the slot after them. */
  lemma RunBefore(q: nat, c: nat, j: nat, n: nat)
    requires q < n && c < n && j < n && j != q && Dist(q, j, n) <= Dist(q, c, n)
    ensures Dist(q, Prev(j, n), n) == Dist(q, j, n) - 1 < Dist(q, c, n)
  {
  }

  /** The new entry is at most one step further from home than the one before it. */
  lemma StepAtEntry(t: Table, home: nat, displ: nat, q: nat, c: nat, s: Slot, r: Table)
    requires home < |t| && displ < |t| && c < |t| && s.hash != 0
    requires home == Home(s.hash, |t|) && q == Wrap(home + displ, |t|)
    requires InsertPoint(t, home, displ) && FirstEmptyFrom(t, q, c)
    requires |r| == |t| && r[q] == s && r[Prev(q, |t|)] == ShiftedSlot(t, q, c, s, Prev(q, |t|))
    ensures StepOk(r, q)
  {
    var n, i := |t|, Prev(q, |t|);
    assert Disp(r, q) == displ;
    if displ > 0 {
      assert Wrap(home + displ - 1, n) == i;
      assert t[i].hash != 0 && c != i;
      assert r[i] == t[i];
    }
  }

  /** A shifted entry keeps its distance to the entry shifted before it, or to the new one. */
  lemma StepShifted(t: Table, displ: int, q: nat, c: nat, s: Slot, r: Table, j: nat)
    requires Ordered(t) && q < |t| && c < |t| && FirstEmptyFrom(t, q, c) && j < |t| && |r| == |t|
    requires j != q && Dist(q, j, |t|) <= Dist(q, c, |t|)
    requires r[j] == t[Prev(j, |t|)] && r[Prev(j, |t|)] == ShiftedSlot(t, q, c, s, Prev(j, |t|))
    requires Disp(t, q) < displ == Disp(r, q) || Prev(j, |t|) != q
    ensures StepOk(r, j)
  {
    var n, i := |t|, Prev(j, |t|);
    RunBefore(q, c, j, n);
    ShiftedDisp(t, c, r, j);
    if i != q {
      RunBefore(q, c, i, n);
      ShiftedDisp(t, c, r, i);
      assert StepOk(t, i);
    }
  }

  /** Behind the run nothing moved, and its first entry is at home. */
  lemma StepBehind(t: Table, q: nat, c: nat, s: Slot, r: Table, j: nat)
    requires Ordered(t) && q < |t| && c < |t| && t[c].hash == 0 && j < |t| && |r| == |t| && s.hash != 0
    requires j != q && Dist(q, j, |t|) > Dist(q, c, |t|)
    requires r[j] == t[j] && r[Prev(j, |t|)] == ShiftedSlot(t, q, c, s, Prev(j, |t|))
    ensures StepOk(r, j)
  {
    assert StepOk(t, j);
    if Prev(j, |t|) != c {
      assert r[Prev(j, |t|)] == t[Prev(j, |t|)];
    }
  }

  lemma InsertKeepsStep(t: Table, home: nat, displ: nat, q: nat, c: nat, s: Slot, r: Table, j: nat)
    requires Ordered(t) && displ < |t| && c < |t| && s.hash != 0 && j < |t|
    requires home == Home(s.hash, |t|) && q == Wrap(home + displ, |t|)
    requires InsertPoint(t, home, displ) && FirstEmptyFrom(t, q, c)
    requires |r| == |t| && r[q] == s
    requires r[j] == ShiftedSlot(t, q, c, s, j)
    requires r[Prev(j, |t|)] == ShiftedSlot(t, q, c, s, Prev(j, |t|))
    ensures StepOk(r, j)
  {
    if j == q {
      StepAtEntry(t, home, displ, q, c, s, r);
    } else if Dist(q, j, |t|) <= Dist(q, c, |t|) {
      StepShifted(t, displ, q, c, s, r, j);
    } else {
      StepBehind(t, q, c, s, r, j);
    }
  }

  /** Insertion at the slot where the probe stopped keeps the Robin Hood order. */
  lemma InsertKeepsOrder(t: Table, home: nat, displ: nat, q: nat, c: nat, s: Slot, r: Table)
    requires Clean(t) && Ordered(t) && displ < |t| && c < |t| && s.hash != 0
    requires home == Home(s.hash, |t|) && q == Wrap(home + displ, |t|)
    requires InsertPoint(t, home, displ) && FirstEmptyFrom(t, q, c)
    requires Inserted(t, q, c, s, r)
    ensures Clean(r) && Ordered(r)
    ensures multiset(t)[EMPTY] > 1 ==> Valid(r)
  {
    forall j | 0 <= j < |r|
      ensures StepOk(r, j)
    {
      InsertKeepsStep(t, home, displ, q, c, s, r, j);
    }
    InsertedBag(t, q, c, s, r);
    assert multiset(t)[EMPTY] > 1 ==> EMPTY in multiset(r);
  }

  // ----- growth -----

  /** The slots in the order growth copies them: starting at the empty slot `e`, cyclically. */
  function Rotated(t: Table, e: nat): (r: Table)
    requires e < |t|
    ensures |r| == |t| && forall p :: 0 <= p < |t| ==> r[p] == t[Wrap(e + p, |t|)]
  {
    t[e..] + t[..e]
  }

  lemma RotatedBag(t: Table, e: nat)
    requires e < |t|
    ensures multiset(Rotated(t, e)) == multiset(t)
  {
    assert t == t[..e] + t[e..];
  }

  /** Home of the `p`-th copied entry, counted from `e`. */
  function CopyHome(t: Table, e: nat, p: nat): (h: nat)
    requires e < |t| && p < |t|
    ensures h < |t|
  {
    Dist(e, Home(Rotated(t, e)[p].hash, |t|), |t|)
  }

  lemma CopyHomeIs(t: Table, e: nat, p: nat)
    requires Ordered(t) && e < |t| && t[e].hash == 0 && p < |t| && Rotated(t, e)[p].hash != 0
    ensures 1 <= CopyHome(t, e, p) == p - Disp(t, Wrap(e + p, |t|)) <= p
  {
    BelowEmpty(t, e, Wrap(e + p, |t|));
  }

  /** Entries are copied in the order of their homes. */
  lemma CopyOrder(t: Table, e: nat, p: nat, p': nat)
    requires Ordered(t) && e < |t| && t[e].hash == 0 && p <= p' < |t|
    requires Rotated(t, e)[p].hash != 0 && Rotated(t, e)[p'].hash != 0
    ensures CopyHome(t, e, p) <= CopyHome(t, e, p')
  {
    CopyHomeIs(t, e, p);
    CopyHomeIs(t, e, p');
    assert Wrap(Wrap(e + p, |t|) + (p' - p), |t|) == Wrap(e + p', |t|);
    Climb(t, Wrap(e + p, |t|), p' - p);
  }

  /** Both halves of the doubled table, seen from `e`, are numbered like the old table. */
  function Fold(r: nat, size: nat): (f: nat)
    requires r < 2 * size
    ensures f < size
  {
    if r < size then r else r - size
  }

  /** Doubling the size leaves a home where it was or moves it by the old size. */
  lemma {:induction false} DoubledHome(hash: nat, size: nat)
    requires size > 0
    ensures Home(hash, 2 * size) == Home(hash, size) || Home(hash, 2 * size) == Home(hash, size) + size
  {
    if hash >= 2 * size {
      DoubledHome(hash - 2 * size, size);
    }
  }

  lemma CopyHomeFolds(t: Table, e: nat, p: nat)
    requires e < |t| && p < |t|
    ensures Fold(Dist(e, Home(Rotated(t, e)[p].hash, 2 * |t|), 2 * |t|), |t|) == CopyHome(t, e, p)
  {
    DoubledHome(Rotated(t, e)[p].hash, |t|);
  }

  /** Where slot `x` of the doubled table and its home lie, counted from `e`. */
  ghost predicate Placed(t: Table, e: nat, u: Table, i: nat, x: nat)
    requires e < |t| && |u| == 2 * |t| && x < |u|
  {
    var r, h := Dist(e, x, |u|), Dist(e, Home(u[x].hash, |u|), |u|);
    u[x].hash != 0 ==>
      && Fold(r, |t|) < i
      && h <= r && (h < |t| <==> r < |t|) && 1 <= Fold(h, |t|)
      && forall p :: i <= p < |t| && Rotated(t, e)[p].hash != 0 ==> Fold(h, |t|) <= CopyHome(t, e, p)
  }

  /** State of the doubled table `u` after the first `i` slots have been copied. */
  ghost predicate Copied(t: Table, e: nat, u: Table, i: nat)
    requires e < |t| && i <= |t|
  {
    && |u| == 2 * |t| && Clean(u) && Ordered(u)
    && (forall x :: 0 <= x < |u| ==> Placed(t, e, u, i, x))
    && (forall s :: s != EMPTY ==> multiset(u)[s] == multiset(Rotated(t, e)[..i])[s])
    && multiset(u)[EMPTY] + i == |u| + multiset(Rotated(t, e)[..i])[EMPTY]
  }

  /** First empty slot that plain linear probing from `g` meets. */
  ghost predicate ProbeStops(u: Table, g: nat, q: nat)
    requires g < |u| && q < |u|
  {
    && u[q] == EMPTY
    && forall x :: 0 <= x < |u| && Dist(g, x, |u|) < Dist(g, q, |u|) ==> u[x].hash != 0
  }

  /** The slot that bounds the probe for the `i`-th copied entry: `i` steps from `e`, in the home's half. */
  function Bound(t: Table, e: nat, g: nat, i: nat): (x: nat)
    requires e < |t| && i < |t| && g < 2 * |t|
    ensures x < 2 * |t|
  {
    Wrap(e + (if Dist(e, g, 2 * |t|) < |t| then i else i + |t|), 2 * |t|)
  }

  lemma BoundIsEmpty(t: Table, e: nat, u: Table, i: nat, g: nat)
    requires Ordered(t) && e < |t| && t[e].hash == 0 && i < |t| && Copied(t, e, u, i)
    requires Rotated(t, e)[i].hash != 0 && g == Home(Rotated(t, e)[i].hash, |u|)
    ensures u[Bound(t, e, g, i)] == EMPTY
    ensures Dist(g, Bound(t, e, g, i), |u|) == i - CopyHome(t, e, i)
  {
    CopyHomeIs(t, e, i);
    CopyHomeFolds(t, e, i);
    assert Placed(t, e, u, i, Bound(t, e, g, i));
  }

  /** The probe for the `i`-th copied entry stays in its home's half and goes at most `i` steps from `e`. */
  lemma ProbeStaysInHalf(t: Table, e: nat, u: Table, i: nat, g: nat, q: nat)
    requires Ordered(t) && e < |t| && t[e].hash == 0 && i < |t| && Copied(t, e, u, i)
    requires Rotated(t, e)[i].hash != 0 && g == Home(Rotated(t, e)[i].hash, |u|)
    requires q < |u| && ProbeStops(u, g, q)
    ensures Dist(e, g, |u|) <= Dist(e, q, |u|) && (Dist(e, g, |u|) < |t| <==> Dist(e, q, |u|) < |t|)
    ensures Dist(g, q, |u|) == Dist(e, q, |u|) - Dist(e, g, |u|)
    ensures Fold(Dist(e, q, |u|), |t|) <= i
  {
    BoundIsEmpty(t, e, u, i, g);
    assert Dist(g, q, |u|) <= Dist(g, Bound(t, e, g, i), |u|);
  }

  /** The entry lands no further from its home than one step past its predecessor. */
  lemma CopyStepOk(t: Table, e: nat, u: Table, i: nat, g: nat, q: nat)
    requires Ordered(t) && e < |t| && t[e].hash == 0 && i < |t| && Copied(t, e, u, i)
    requires Rotated(t, e)[i].hash != 0 && g == Home(Rotated(t, e)[i].hash, |u|)
    requires q < |u| && ProbeStops(u, g, q) && q != g
    ensures Dist(g, q, |u|) <= Disp(u, Prev(q, |u|)) + 1
  {
    ProbeStaysInHalf(t, e, u, i, g, q);
    CopyHomeFolds(t, e, i);
    var x := Prev(q, |u|);
    OneStepBack(g, q, |u|);
    assert u[x].hash != 0;
    assert Placed(t, e, u, i, x);
    LandsNear(|t|, e, g, q, Home(u[x].hash, |u|));
  }

  lemma OneStepBack(g: nat, q: nat, n: nat)
    requires g < n && q < n && q != g
    ensures Dist(g, Prev(q, n), n) == Dist(g, q, n) - 1
  {
  }

  /**
    Distances from `e` in a table of `2 * m` slots: if `q` lies behind `g` in the same half, and the slot
    before `q` is held from a home `h` in that half that folds to no more than `g` does.
   */
  lemma LandsNear(m: nat, e: nat, g: nat, q: nat, h: nat)
    requires e < m && g < 2 * m && q < 2 * m && h < 2 * m && q != g
    requires Dist(e, g, 2 * m) <= Dist(e, q, 2 * m) && (Dist(e, g, 2 * m) < m <==> Dist(e, q, 2 * m) < m)
    requires Dist(e, h, 2 * m) <= Dist(e, Prev(q, 2 * m), 2 * m)
    requires Dist(e, h, 2 * m) < m <==> Dist(e, Prev(q, 2 * m), 2 * m) < m
    requires Fold(Dist(e, h, 2 * m), m) <= Fold(Dist(e, g, 2 * m), m)
    ensures Dist(g, q, 2 * m) <= Dist(h, Prev(q, 2 * m), 2 * m) + 1
  {
  }

  lemma CopyKeepsOrder(t: Table, e: nat, u: Table, i: nat, g: nat, q: nat)
    requires Ordered(t) && e < |t| && t[e].hash == 0 && i < |t| && Copied(t, e, u, i)
    requires Rotated(t, e)[i].hash != 0 && g == Home(Rotated(t, e)[i].hash, |u|)
    requires q < |u| && ProbeStops(u, g, q)
    ensures Ordered(u[q := Rotated(t, e)[i]])
  {
    if q != g {
      CopyStepOk(t, e, u, i, g, q);
    }
    PutKeepsOrder(u, g, q, Rotated(t, e)[i]);
  }

  lemma PutKeepsOrder(u: Table, g: nat, q: nat, s: Slot)
    requires Ordered(u) && q < |u| && u[q].hash == 0 && s.hash != 0 && g == Home(s.hash, |u|)
    requires q != g ==> Dist(g, q, |u|) <= Disp(u, Prev(q, |u|)) + 1
    ensures Ordered(u[q := s])
  {
    var v := u[q := s];
    forall j | 0 <= j < |v|
      ensures StepOk(v, j)
    {
      assert StepOk(u, j);
    }
  }

  lemma CopyPlaces(t: Table, e: nat, u: Table, i: nat, g: nat, q: nat, x: nat)
    requires Ordered(t) && e < |t| && t[e].hash == 0 && i < |t| && Copied(t, e, u, i)
    requires Rotated(t, e)[i].hash != 0 && g == Home(Rotated(t, e)[i].hash, |u|)
    requires q < |u| && ProbeStops(u, g, q) && x < |u|
    ensures Placed(t, e, u[q := Rotated(t, e)[i]], i + 1, x)
  {
    assert Placed(t, e, u, i, x);
    if x == q {
      ProbeStaysInHalf(t, e, u, i, g, q);
      CopyHomeIs(t, e, i);
      CopyHomeFolds(t, e, i);
      forall p | i < p < |t| && Rotated(t, e)[p].hash != 0
        ensures CopyHome(t, e, i) <= CopyHome(t, e, p)
      {
        CopyOrder(t, e, i, p);
      }
    }
  }

  lemma CopyBag(u: Table, rot: Table, i: nat, q: nat)
    requires i < |rot| && q < |u| && u[q] == EMPTY && rot[i] != EMPTY
    requires forall s :: s != EMPTY ==> multiset(u)[s] == multiset(rot[..i])[s]
    requires multiset(u)[EMPTY] + i == |u| + multiset(rot[..i])[EMPTY]
    ensures var v, p := u[q := rot[i]], rot[..i + 1];
            && (forall s :: s != EMPTY ==> multiset(v)[s] == multiset(p)[s])
            && multiset(v)[EMPTY] + i + 1 == |u| + multiset(p)[EMPTY]
  {
    assert rot[..i + 1] == rot[..i] + [rot[i]];
  }

  /** One copied entry: plain linear probing in the doubled table keeps the copy state. */
  lemma CopyStep(t: Table, e: nat, u: Table, i: nat, g: nat, q: nat)
    requires Ordered(t) && e < |t| && t[e].hash == 0 && i < |t| && Copied(t, e, u, i)
    requires Rotated(t, e)[i].hash != 0 && g == Home(Rotated(t, e)[i].hash, |u|)
    requires q < |u| && ProbeStops(u, g, q)
    ensures Copied(t, e, u[q := Rotated(t, e)[i]], i + 1)
  {
    CopyKeepsOrder(t, e, u, i, g, q);
    AllPlaced(t, e, u, i, g, q, u[q := Rotated(t, e)[i]], i + 1);
    CopyBag(u, Rotated(t, e), i, q);
  }

  lemma AllPlaced(t: Table, e: nat, u: Table, i: nat, g: nat, q: nat, v: Table, k: nat)
    requires Ordered(t) && e < |t| && t[e].hash == 0 && i < |t| && Copied(t, e, u, i)
    requires Rotated(t, e)[i].hash != 0 && g == Home(Rotated(t, e)[i].hash, |u|)
    requires q < |u| && ProbeStops(u, g, q) && v == u[q := Rotated(t, e)[i]] && k == i + 1
    ensures forall x :: 0 <= x < |v| ==> Placed(t, e, v, k, x)
  {
    forall x | 0 <= x < |v|
      ensures Placed(t, e, v, k, x)
    {
      CopyPlaces(t, e, u, i, g, q, x);
    }
  }

  /** The zeroed table that growth starts from. */
  lemma {:induction false} AllEmptyBag(u: Table)
    requires forall x :: 0 <= x < |u| ==> u[x] == EMPTY
    ensures multiset(u)[EMPTY] == |u| && forall s :: s != EMPTY ==> multiset(u)[s] == 0
  {
    if u != [] {
      AllEmptyBag(u[1..]);
      assert u == [u[0]] + u[1..];
    }
  }

  lemma CopyStart(t: Table, e: nat, u: Table)
    requires e < |t| && |u| == 2 * |t| && forall x :: 0 <= x < |u| ==> u[x] == EMPTY
    ensures Copied(t, e, u, 0)
  {
    AllEmptyBag(u);
  }

  lemma SkipStep(t: Table, e: nat, u: Table, i: nat)
    requires Clean(t) && e < |t| && i < |t| && Copied(t, e, u, i) && Rotated(t, e)[i].hash == 0
    ensures Copied(t, e, u, i + 1)
  {
    var k := i + 1;
    forall x | 0 <= x < |u|
      ensures Placed(t, e, u, k, x)
    {
      assert Placed(t, e, u, i, x);
    }
    var rot := Rotated(t, e);
    assert rot[..i + 1] == rot[..i] + [rot[i]];
  }

  /** The claim growth rests on: once every slot is copied, the doubled table is valid and holds the same entries. */
  lemma GrowthKeepsOrder(t: Table, e: nat, u: Table)
    requires Valid(t) && e < |t| && t[e] == EMPTY && Copied(t, e, u, |t|)
    ensures Valid(u) && |u| == 2 * |t|
    ensures forall s :: s != EMPTY ==> multiset(u)[s] == multiset(t)[s]
    ensures multiset(u)[EMPTY] == |t| + multiset(t)[EMPTY]
  {
    RotatedBag(t, e);
    assert Rotated(t, e)[..|t|] == Rotated(t, e);
    assert Placed(t, e, u, |t|, e);
    assert u[e] == EMPTY;
  }
}
