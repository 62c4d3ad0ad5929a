/**
  Namespace declarations of an XML tree: which binding a prefix has at an element, which
  declarations canonical form prints, and what a reader of that form recovers.
 */
module Namespaces {
  import opened Options

  /** A declaration; the empty prefix stands for the default namespace. */
  datatype Ns = Ns(prefix: string, href: string)

  /**
    The declarations that apply at an element, nearest first: its own in order, then its
    parent's, and so on up to the root.
   */
  type Axis = seq<Ns>

  /** The nearest declaration of a prefix. */
  function Nearest(axis: Axis, p: string): (r: Option<string>) {
    if axis == [] then None
    else if axis[0].prefix == p then Some(axis[0].href)
    else Nearest(axis[1..], p)
  }

  /** The binding of a prefix; an undeclared default namespace is the empty one. */
  function InScope(axis: Axis, p: string): (r: Option<string>) {
    match Nearest(axis, p)
    case Some(h) => Some(h)
    case None => if p == "" then Some("") else None
  }

  /** Both axes bind every prefix alike; "xml" is bound by definition. */
  ghost predicate SameScope(a: Axis, b: Axis) {
    forall p :: p != "xml" ==> InScope(a, p) == InScope(b, p)
  }

  /** The `i`-th declaration is the one in force: nearer ones have other prefixes, and it is not for "xml". */
  predicate Effective(axis: Axis, i: nat)
    requires i < |axis|
  {
    axis[i].prefix != "xml" && forall k :: 0 <= k < i ==> axis[k].prefix != axis[i].prefix
  }

  /** The declarations in force among the first `n`. */
  function InForce(axis: Axis, n: nat): (r: seq<Ns>)
    requires n <= |axis|
  {
    if n == 0 then []
    else InForce(axis, n - 1) + (if Effective(axis, n - 1) then [axis[n - 1]] else [])
  }

  /** The last entry for a prefix in a stack of declarations. */
  function Latest(stack: seq<Ns>, p: string): (r: Option<string>) {
    if stack == [] then None
    else if stack[|stack| - 1].prefix == p then Some(stack[|stack| - 1].href)
    else Latest(stack[..|stack| - 1], p)
  }

  lemma {:induction false} NearestAppend(a: Axis, b: Axis, p: string)
    ensures Nearest(a + b, p) == if Nearest(a, p).Some? then Nearest(a, p) else Nearest(b, p)
  {
    if a == [] {
      assert a + b == b;
    } else {
      assert (a + b)[1..] == a[1..] + b;
      NearestAppend(a[1..], b, p);
    }
  }

  lemma {:induction false} LatestAppend(a: seq<Ns>, b: seq<Ns>, p: string)
    ensures Latest(a + b, p) == if Latest(b, p).Some? then Latest(b, p) else Latest(a, p)
    decreases |b|
  {
    if b == [] {
      assert a + b == a;
    } else {
      var m := |b| - 1;
      assert (a + b)[..|a + b| - 1] == a + b[..m];
      LatestAppend(a, b[..m], p);
    }
  }

  lemma {:induction false} NearestNone(axis: Axis, p: string)
    ensures Nearest(axis, p).None? <==> forall k :: 0 <= k < |axis| ==> axis[k].prefix != p
  {
    if axis != [] {
      NearestNone(axis[1..], p);
      assert forall k :: 1 <= k < |axis| ==> axis[k] == axis[1..][k - 1];
    }
  }

  lemma {:induction false} NearestIs(axis: Axis, i: nat)
    requires i < |axis| && forall k :: 0 <= k < i ==> axis[k].prefix != axis[i].prefix
    ensures Nearest(axis, axis[i].prefix) == Some(axis[i].href)
  {
    if i > 0 {
      NearestIs(axis[1..], i - 1);
    }
  }

  /** Looking a prefix up among the declarations in force finds the nearest declaration. */
  lemma {:induction false} LatestInForce(axis: Axis, n: nat, p: string)
    requires n <= |axis| && p != "xml"
    ensures Latest(InForce(axis, n), p) == Nearest(axis[..n], p)
  {
    if n > 0 {
      var m := n - 1;
      LatestInForce(axis, m, p);
      var effective := Effective(axis, m);
      if p == axis[m].prefix { EffectiveIsFirst(axis, m, p); }
      LatestStep(InForce(axis, m), axis[..m], axis[m], effective, p);
      assert axis[..n] == axis[..m] + [axis[m]];
    }
  }

  lemma EffectiveIsFirst(axis: Axis, m: nat, p: string)
    requires m < |axis| && p != "xml" && p == axis[m].prefix
    ensures Effective(axis, m) <==> Nearest(axis[..m], p).None?
  {
    NearestNone(axis[..m], p);
    assert forall k :: 0 <= k < m ==> axis[..m][k] == axis[k];
  }

  lemma LatestStep(front: seq<Ns>, a: Axis, d: Ns, effective: bool, p: string)
    requires Latest(front, p) == Nearest(a, p)
    requires p == d.prefix ==> (effective <==> Nearest(a, p).None?)
    ensures Latest(front + if effective then [d] else [], p) == Nearest(a + [d], p)
  {
    NearestAppend(a, [d], p);
    NearestOne(d, p);
    if effective {
      LatestAppend(front, [d], p);
      LatestOne(d, p);
    } else {
      assert front + [] == front;
    }
  }

  lemma NearestOne(d: Ns, p: string)
    ensures Nearest([d], p) == if d.prefix == p then Some(d.href) else None
  {
    assert [d][1..] == [];
  }

  lemma LatestOne(d: Ns, p: string)
    ensures Latest([d], p) == if d.prefix == p then Some(d.href) else None
  {
    assert [d][..0] == [];
  }

  lemma {:induction false} InForceIn(axis: Axis, n: nat, d: Ns)
    requires n <= |axis| && d in InForce(axis, n)
    ensures exists i :: 0 <= i < n && axis[i] == d && Effective(axis, i)
  {
    if n > 0 {
      if d in InForce(axis, n - 1) {
        InForceIn(axis, n - 1, d);
      }
    }
  }

  lemma {:induction false} EffectiveInForce(axis: Axis, n: nat, i: nat)
    requires i < n <= |axis| && Effective(axis, i)
    ensures axis[i] in InForce(axis, n)
  {
    if i < n - 1 {
      EffectiveInForce(axis, n - 1, i);
    }
  }

  // ----- what canonical form prints -----

  /** Order of strings by character. */
  predicate Less(a: string, b: string) {
    if b == "" then false
    else if a == "" then true
    else a[0] < b[0] || (a[0] == b[0] && Less(a[1..], b[1..]))
  }

  lemma {:induction false} LessTransitive(a: string, b: string, c: string)
    requires Less(a, b) && Less(b, c)
    ensures Less(a, c)
  {
    if a != "" && a[0] == b[0] && b[0] == c[0] {
      LessTransitive(a[1..], b[1..], c[1..]);
    }
  }

  lemma {:induction false} LessTotal(a: string, b: string)
    ensures Less(a, b) || Less(b, a) || a == b
  {
    if a != "" && b != "" {
      LessTotal(a[1..], b[1..]);
      if a[0] == b[0] && a[1..] == b[1..] {
        assert a == [a[0]] + a[1..];
        assert b == [b[0]] + b[1..];
      }
    }
  }

  lemma {:induction false} LessIrreflexive(a: string)
    ensures !Less(a, a)
  {
    if a != "" {
      LessIrreflexive(a[1..]);
    }
  }

  /** Ordered insertion before the first entry that is not smaller. */
  function Insert(list: seq<Ns>, d: Ns): (r: seq<Ns>) {
    if list == [] then [d]
    else if Less(list[0].prefix, d.prefix) then [list[0]] + Insert(list[1..], d)
    else [d] + list
  }

  lemma {:induction false} InsertHolds(list: seq<Ns>, d: Ns, x: Ns)
    ensures x in Insert(list, d) <==> x in list || x == d
  {
    if list != [] && Less(list[0].prefix, d.prefix) {
      InsertHolds(list[1..], d, x);
      assert list == [list[0]] + list[1..];
    }
  }

  /** Strictly ascending prefixes: sorted, and no prefix twice. */
  ghost predicate Ascending(list: seq<Ns>) {
    forall i, j :: 0 <= i < j < |list| ==> Less(list[i].prefix, list[j].prefix)
  }

  lemma {:induction false} InsertAscends(list: seq<Ns>, d: Ns)
    requires Ascending(list) && forall x :: x in list ==> x.prefix != d.prefix
    ensures Ascending(Insert(list, d))
  {
    if list != [] {
      var r := Insert(list, d);
      if Less(list[0].prefix, d.prefix) {
        assert forall x :: x in list[1..] ==> x in list;
        InsertAscends(list[1..], d);
        var t := Insert(list[1..], d);
        forall j | 0 <= j < |t|
          ensures Less(list[0].prefix, t[j].prefix)
        {
          InsertHolds(list[1..], d, t[j]);
        }
      } else {
        LessTotal(list[0].prefix, d.prefix);
        forall j | 0 <= j < |list|
          ensures Less(d.prefix, list[j].prefix)
        {
          if j > 0 {
            LessTransitive(d.prefix, list[0].prefix, list[j].prefix);
          }
        }
      }
    }
  }

  /** The `i`-th declaration is in force and says something the parent's scope does not. */
  predicate Shown(axis: Axis, outer: Axis, i: nat)
    requires i < |axis|
  {
    Effective(axis, i) && InScope(outer, axis[i].prefix) != Some(axis[i].href)
  }

  /** The ordered list after the first `n` declarations of the axis. */
  function PrintedTo(axis: Axis, outer: Axis, n: nat): (r: seq<Ns>)
    requires n <= |axis|
  {
    if n == 0 then []
    else if Shown(axis, outer, n - 1) then Insert(PrintedTo(axis, outer, n - 1), axis[n - 1])
    else PrintedTo(axis, outer, n - 1)
  }

  /** What is printed on an element with declarations `own` under an axis `outer`. */
  function Printed(own: seq<Ns>, outer: Axis): (r: seq<Ns>) {
    PrintedTo(own + outer, outer, |own + outer|)
  }

  lemma {:induction false} PrintedToHolds(axis: Axis, outer: Axis, n: nat, d: Ns)
    requires n <= |axis|
    ensures d in PrintedTo(axis, outer, n) <==> exists i :: 0 <= i < n && axis[i] == d && Shown(axis, outer, i)
  {
    if n > 0 {
      PrintedToHolds(axis, outer, n - 1, d);
      InsertHolds(PrintedTo(axis, outer, n - 1), axis[n - 1], d);
    }
  }

  lemma {:induction false} PrintedToAscends(axis: Axis, outer: Axis, n: nat)
    requires n <= |axis|
    ensures Ascending(PrintedTo(axis, outer, n))
  {
    if n > 0 {
      PrintedToAscends(axis, outer, n - 1);
      if Shown(axis, outer, n - 1) {
        forall x | x in PrintedTo(axis, outer, n - 1)
          ensures x.prefix != axis[n - 1].prefix
        {
          PrintedToHolds(axis, outer, n - 1, x);
        }
        InsertAscends(PrintedTo(axis, outer, n - 1), axis[n - 1]);
      }
    }
  }

  /** An element prints exactly the bindings that differ from its parent's, each once, in order of prefix. */
  lemma PrintedExactly(own: seq<Ns>, outer: Axis, d: Ns)
    ensures Ascending(Printed(own, outer))
    ensures d in Printed(own, outer) <==>
            d.prefix != "xml" && InScope(own + outer, d.prefix) == Some(d.href) != InScope(outer, d.prefix)
  {
    var axis := own + outer;
    PrintedToAscends(axis, outer, |axis|);
    PrintedToHolds(axis, outer, |axis|, d);
    if d in Printed(own, outer) {
      var i :| 0 <= i < |axis| && axis[i] == d && Shown(axis, outer, i);
      NearestIs(axis, i);
    }
    if d.prefix != "xml" && InScope(axis, d.prefix) == Some(d.href) != InScope(outer, d.prefix) {
      ExtendsScope(own, outer, d.prefix);
      var i := FirstFor(axis, d.prefix);
      NearestIs(axis, i);
      assert Shown(axis, outer, i) && axis[i] == d;
    }
  }

  /** A prefix bound at the parent is bound at the child. */
  lemma ExtendsScope(own: seq<Ns>, outer: Axis, p: string)
    ensures Nearest(own + outer, p).None? ==> Nearest(outer, p).None?
  {
    NearestAppend(own, outer, p);
  }

  lemma {:induction false} FirstFor(axis: Axis, p: string) returns (i: nat)
    requires Nearest(axis, p).Some?
    ensures i < |axis| && axis[i].prefix == p && forall k :: 0 <= k < i ==> axis[k].prefix != p
  {
    if axis[0].prefix == p {
      i := 0;
    } else {
      i := FirstFor(axis[1..], p);
      i := i + 1;
      assert forall k :: 1 <= k < i ==> axis[k] == axis[1..][k - 1];
    }
  }

  /** Reading the printed declarations under a scope equal to the parent's gives the element's scope. */
  lemma ReadBack(own: seq<Ns>, outer: Axis, read: Axis)
    requires SameScope(read, outer)
    ensures SameScope(Printed(own, outer) + read, own + outer)
  {
    var shown := Printed(own, outer);
    forall p | p != "xml"
      ensures InScope(shown + read, p) == InScope(own + outer, p)
    {
      NearestAppend(shown, read, p);
      if Nearest(shown, p).Some? {
        var i := FirstFor(shown, p);
        NearestIs(shown, i);
        PrintedExactly(own, outer, shown[i]);
      } else {
        NearestNone(shown, p);
        ExtendsScope(own, outer, p);
        var b := InScope(own + outer, p);
        if b.Some? {
          PrintedExactly(own, outer, Ns(p, b.value));
          assert Ns(p, b.value) !in shown;
        }
        assert InScope(read, p) == InScope(outer, p);
      }
    }
  }
}
