/**
  Canonical XML of a fully visible document: the stack of rendered namespace declarations, the
  walk that decides what to print, and the proof that a reader recovers every element's scope.
 */
module C14n {
  import opened Options
  import opened Namespaces

  datatype Node = Element(name: string, own: seq<Ns>, kids: seq<Node>) | Other(text: string)

  datatype Token = Open(name: string, shown: seq<Ns>) | Close(name: string) | Chars(text: string)

  /** The canonical form: each element with exactly the declarations that change its parent's scope. */
  function Render(n: Node, outer: Axis): (r: seq<Token>)
    decreases n, 0
  {
    match n
    case Other(text) => [Chars(text)]
    case Element(name, own, kids) =>
      [Open(name, Printed(own, outer))] + RenderAll(kids, own + outer) + [Close(name)]
  }

  function RenderAll(ns: seq<Node>, outer: Axis): (r: seq<Token>)
    decreases ns, 1
  {
    if ns == [] then [] else Render(ns[0], outer) + RenderAll(ns[1..], outer)
  }

  const DEFAULT_MAX: nat := 16

  /** Declarations rendered so far; [prevStart, prevEnd) are those of the previous visible element. */
  class NsStack {
    var tab: array<Ns>
    var curEnd: nat
    var prevStart: nat
    var prevEnd: nat

    ghost predicate Valid()
      reads this
    {
      prevStart <= prevEnd <= curEnd <= tab.Length
    }

    constructor ()
      ensures Valid() && fresh(tab) && curEnd == prevStart == prevEnd == 0
    {
      tab := new Ns[0];
      curEnd, prevStart, prevEnd := 0, 0, 0;
    }

    method Add(ns: Ns)
      requires Valid()
      modifies this`tab, this`curEnd, tab
      ensures Valid() && (tab == old(tab) || fresh(tab))
      ensures curEnd == old(curEnd) + 1 && tab[..curEnd] == old(tab[..curEnd]) + [ns]
    {
      if tab.Length == curEnd {
        var size := if tab.Length == 0 then DEFAULT_MAX else 2 * tab.Length;
        var bigger := new Ns[size](i => ns);
        forall i | 0 <= i < curEnd { bigger[i] := tab[i]; }
        assert bigger[..curEnd] == tab[..curEnd];
        tab := bigger;
      }
      ghost var before := tab[..curEnd];
      tab[curEnd] := ns;
      curEnd := curEnd + 1;
      assert tab[..curEnd] == before + [ns];
    }

    method Shift()
      requires Valid()
      modifies this`prevStart, this`prevEnd
      ensures Valid() && prevStart == old(prevEnd) && prevEnd == curEnd
    {
      prevStart, prevEnd := prevEnd, curEnd;
    }

    /** Whether the declaration is already rendered: the last entry for its prefix says the same. */
    method Find(ns: Ns) returns (r: bool)
      requires Valid()
      ensures r == Rendered(tab[..curEnd], prevStart, ns)
    {
      var isEmpty := ns.prefix == "" && ns.href == "";
      var start := if isEmpty then 0 else prevStart;
      var i := curEnd;
      while i > start
        invariant start <= i <= curEnd
        invariant Latest(tab[start..curEnd], ns.prefix) == Latest(tab[start..i], ns.prefix)
      {
        i := i - 1;
        assert tab[start..i + 1][..i - start] == tab[start..i];
        if tab[i].prefix == ns.prefix {
          return tab[i].href == ns.href;
        }
      }
      r := isEmpty;
    }
  }

  /** The answer of the search over stack entries, from `from` on, or from the bottom for xmlns="". */
  ghost predicate Rendered(entries: seq<Ns>, from: nat, ns: Ns)
    requires from <= |entries|
  {
    var isEmpty := ns.prefix == "" && ns.href == "";
    match Latest(entries[if isEmpty then 0 else from..], ns.prefix)
    case Some(h) => h == ns.href
    case None => isEmpty
  }

  /** The stack as an element under axis `outer` finds it. */
  ghost predicate ReadyFor(entries: seq<Ns>, from: nat, outer: Axis) {
    && from <= |entries| && entries[from..] == InForce(outer, |outer|)
    && forall k :: 0 <= k < |entries| ==> entries[k] in outer
  }

  lemma OwnHasNone(axis: Axis, i: nat)
    requires i < |axis| && Effective(axis, i)
    ensures Latest(InForce(axis, i), axis[i].prefix).None?
  {
    LatestInForce(axis, i, axis[i].prefix);
    NearestNone(axis[..i], axis[i].prefix);
  }

  /** Searching the parent's window finds the parent's binding. */
  lemma SearchWindow(entries: seq<Ns>, from: nat, outer: Axis, mine: seq<Ns>, p: string)
    requires ReadyFor(entries, from, outer) && Latest(mine, p).None? && p != "xml"
    ensures Latest((entries + mine)[from..], p) == Nearest(outer, p)
  {
    assert (entries + mine)[from..] == entries[from..] + mine;
    LatestAppend(entries[from..], mine, p);
    LatestInForce(outer, |outer|, p);
    assert outer[..|outer|] == outer;
  }

  /** Searching the whole stack finds it too: older windows hold only declarations of the same axis. */
  lemma SearchAll(entries: seq<Ns>, from: nat, outer: Axis, mine: seq<Ns>, p: string)
    requires ReadyFor(entries, from, outer) && Latest(mine, p).None? && p != "xml"
    ensures Latest(entries + mine, p) == Nearest(outer, p)
  {
    SearchWindow(entries, from, outer, mine, p);
    var all := entries + mine;
    assert all == all[..from] + all[from..];
    LatestAppend(all[..from], all[from..], p);
    if Nearest(outer, p).None? {
      NearestNone(outer, p);
      NothingFor(all[..from], p);
    }
  }

  /** The search answers whether the parent's scope already has the binding. */
  lemma RenderedIs(entries: seq<Ns>, from: nat, outer: Axis, axis: Axis, i: nat)
    requires ReadyFor(entries, from, outer) && i < |axis| && Effective(axis, i)
    ensures Rendered(entries + InForce(axis, i), from, axis[i]) <==> InScope(outer, axis[i].prefix) == Some(axis[i].href)
  {
    var p := axis[i].prefix;
    var all := entries + InForce(axis, i);
    OwnHasNone(axis, i);
    SearchWindow(entries, from, outer, InForce(axis, i), p);
    SearchAll(entries, from, outer, InForce(axis, i), p);
    assert all[0..] == all;
  }

  lemma {:induction false} NothingFor(entries: seq<Ns>, p: string)
    requires forall k :: 0 <= k < |entries| ==> entries[k].prefix != p
    ensures Latest(entries, p).None?
  {
    if entries != [] {
      NothingFor(entries[..|entries| - 1], p);
    }
  }

  /** With no default declaration in force, xmlns="" counts as rendered. */
  lemma NoDefaultIsRendered(entries: seq<Ns>, from: nat, outer: Axis, own: seq<Ns>)
    requires ReadyFor(entries, from, outer) && Nearest(own + outer, "").None?
    ensures Rendered(entries + InForce(own + outer, |own + outer|), from, Ns("", ""))
  {
    var axis := own + outer;
    var all := entries + InForce(axis, |axis|);
    NearestAppend(own, outer, "");
    LatestInForce(axis, |axis|, "");
    assert axis[..|axis|] == axis;
    SearchAll(entries, from, outer, InForce(axis, |axis|), "");
    assert all[0..] == all;
  }

  lemma {:induction false} InForceMembers(axis: Axis, n: nat)
    requires n <= |axis|
    ensures forall k :: 0 <= k < |InForce(axis, n)| ==> InForce(axis, n)[k] in axis
  {
    if n > 0 {
      InForceMembers(axis, n - 1);
    }
  }

  /** After the shift the stack is ready for the element's children. */
  lemma ReadyForKids(entries: seq<Ns>, from: nat, outer: Axis, own: seq<Ns>)
    requires ReadyFor(entries, from, outer)
    ensures ReadyFor(entries + InForce(own + outer, |own + outer|), |entries|, own + outer)
  {
    var axis := own + outer;
    InForceMembers(axis, |axis|);
    forall k | 0 <= k < |entries|
      ensures entries[k] in axis
    {
      assert entries[k] in outer;
    }
  }

  class Canonicalizer {
    const stack: NsStack
    var out: seq<Token>

    ghost predicate Ready(outer: Axis)
      reads this, stack, stack.tab
    {
      && stack.Valid() && stack.prevEnd == stack.curEnd
      && ReadyFor(stack.tab[..stack.curEnd], stack.prevStart, outer)
    }

    constructor ()
      ensures Ready([]) && out == [] && fresh(stack) && fresh(stack.tab)
    {
      stack := new NsStack();
      out := [];
    }

    /**
      Walks the declarations that apply at an element, pushes those in force and collects, in
      order, those not rendered yet.
     */
    method NamespacesAxis(own: seq<Ns>, outer: Axis) returns (shown: seq<Ns>)
      requires Ready(outer)
      modifies stack`tab, stack`curEnd, stack.tab
      ensures stack.Valid() && (stack.tab == old(stack.tab) || fresh(stack.tab))
      ensures stack.tab[..stack.curEnd] == old(stack.tab[..stack.curEnd]) + InForce(own + outer, |own + outer|)
      ensures shown == Printed(own, outer)
    {
      var axis := own + outer;
      ghost var entries, from := stack.tab[..stack.curEnd], stack.prevStart;
      var hasDefault := false;
      shown := [];
      for i := 0 to |axis|
        invariant stack.Valid() && (stack.tab == old(stack.tab) || fresh(stack.tab))
        invariant stack.tab[..stack.curEnd] == entries + InForce(axis, i)
        invariant shown == PrintedTo(axis, outer, i)
        invariant hasDefault <==> exists k :: 0 <= k < i && axis[k].prefix == ""
      {
        var ns := axis[i];
        if Effective(axis, i) {
          var rendered := stack.Find(ns);
          RenderedIs(entries, from, outer, axis, i);
          stack.Add(ns);
          if !rendered {
            shown := Insert(shown, ns);
          }
          if ns.prefix == "" {
            hasDefault := true;
          }
        }
      }
      if !hasDefault {
        NearestNone(axis, "");
        NoDefaultIsRendered(entries, from, outer, own);
        var rendered := stack.Find(Ns("", ""));
        if !rendered {
          shown := [Ns("", "")] + shown;
        }
      }
    }

    /** Processes a node and leaves the stack as it found it. */
    method Process(n: Node, outer: Axis)
      requires Ready(outer)
      modifies this`out, stack, stack.tab
      ensures Ready(outer) && (stack.tab == old(stack.tab) || fresh(stack.tab))
      ensures stack.curEnd == old(stack.curEnd) && stack.prevStart == old(stack.prevStart)
      ensures stack.tab[..stack.curEnd] == old(stack.tab[..stack.curEnd])
      ensures out == old(out) + Render(n, outer)
      decreases n, 0
    {
      match n
      case Other(text) => out := out + [Chars(text)];
      case Element(name, own, kids) =>
        var curEnd, prevStart, prevEnd := stack.curEnd, stack.prevStart, stack.prevEnd;
        ghost var entries := stack.tab[..curEnd];
        var shown := NamespacesAxis(own, outer);
        stack.Shift();
        ReadyForKids(entries, prevStart, outer, own);
        out := out + [Open(name, shown)];
        ProcessAll(kids, own + outer);
        out := out + [Close(name)];
        assert stack.tab[..curEnd] == stack.tab[..stack.curEnd][..curEnd];
        stack.curEnd, stack.prevStart, stack.prevEnd := curEnd, prevStart, prevEnd;
    }

    method ProcessAll(ns: seq<Node>, outer: Axis)
      requires Ready(outer)
      modifies this`out, stack, stack.tab
      ensures Ready(outer) && (stack.tab == old(stack.tab) || fresh(stack.tab))
      ensures stack.curEnd == old(stack.curEnd) && stack.prevStart == old(stack.prevStart)
      ensures stack.tab[..stack.curEnd] == old(stack.tab[..stack.curEnd])
      ensures out == old(out) + RenderAll(ns, outer)
      decreases ns, 1
    {
      for i := 0 to |ns|
        invariant Ready(outer) && (stack.tab == old(stack.tab) || fresh(stack.tab))
        invariant stack.curEnd == old(stack.curEnd) && stack.prevStart == old(stack.prevStart)
        invariant stack.tab[..stack.curEnd] == old(stack.tab[..stack.curEnd])
        invariant out + RenderAll(ns[i..], outer) == old(out) + RenderAll(ns, outer)
      {
        assert ns[i..][1..] == ns[i + 1..];
        Process(ns[i], outer);
      }
    }
  }

  // ----- reading the output back -----

  /** The axis at every element of a tree, in document order. */
  function Scopes(n: Node, outer: Axis): (r: seq<Axis>)
    decreases n, 0
  {
    match n
    case Other(_) => []
    case Element(_, own, kids) => [own + outer] + ScopesAll(kids, own + outer)
  }

  function ScopesAll(ns: seq<Node>, outer: Axis): (r: seq<Axis>)
    decreases ns, 1
  {
    if ns == [] then [] else Scopes(ns[0], outer) + ScopesAll(ns[1..], outer)
  }

  /** Innermost scope of a reader. */
  function Top(open: seq<Axis>): Axis {
    if open == [] then [] else open[0]
  }

  /**
    A reader of canonical form: keeps the axes of the open elements, innermost first, and
    reports the axis at every opening tag.
   */
  function Read(ts: seq<Token>, open: seq<Axis>): (r: seq<Axis>)
    decreases |ts|
  {
    if ts == [] then []
    else
      match ts[0]
      case Chars(_) => Read(ts[1..], open)
      case Open(_, shown) =>
        var axis := shown + Top(open);
        [axis] + Read(ts[1..], [axis] + open)
      case Close(_) => Read(ts[1..], if open == [] then [] else open[1..])
  }

  ghost predicate SameScopes(a: seq<Axis>, b: seq<Axis>) {
    |a| == |b| && forall i :: 0 <= i < |a| ==> SameScope(a[i], b[i])
  }

  lemma SameScopesAppend(a: seq<Axis>, b: seq<Axis>, c: seq<Axis>, d: seq<Axis>)
    requires SameScopes(a, b) && SameScopes(c, d)
    ensures SameScopes(a + c, b + d)
  {
  }

  /** Reading a rendered node under a scope equal to the parent's reports its scopes and then goes on with the rest. */
  lemma {:induction false} ReadNode(n: Node, outer: Axis, open: seq<Axis>, rest: seq<Token>) returns (rs: seq<Axis>)
    requires SameScope(Top(open), outer)
    ensures Read(Render(n, outer) + rest, open) == rs + Read(rest, open)
    ensures SameScopes(rs, Scopes(n, outer))
    decreases n, 0
  {
    match n
    case Other(text) =>
      assert (Render(n, outer) + rest)[1..] == rest;
      rs := [];
    case Element(name, own, kids) =>
      var axis := Printed(own, outer) + Top(open);
      var tail := [Close(name)] + rest;
      ReadBack(own, outer, Top(open));
      var inner := ReadNodes(kids, own + outer, [axis] + open, tail);
      assert Render(n, outer) + rest == [Open(name, Printed(own, outer))] + (RenderAll(kids, own + outer) + tail);
      assert tail[1..] == rest && ([axis] + open)[1..] == open;
      rs := [axis] + inner;
  }

  lemma {:induction false} ReadNodes(ns: seq<Node>, outer: Axis, open: seq<Axis>, rest: seq<Token>) returns (rs: seq<Axis>)
    requires SameScope(Top(open), outer)
    ensures Read(RenderAll(ns, outer) + rest, open) == rs + Read(rest, open)
    ensures SameScopes(rs, ScopesAll(ns, outer))
    decreases ns, 1
  {
    if ns == [] {
      assert RenderAll(ns, outer) + rest == rest;
      rs := [];
    } else {
      var more := ReadNodes(ns[1..], outer, open, rest);
      var tail := RenderAll(ns[1..], outer) + rest;
      var first := ReadNode(ns[0], outer, open, tail);
      Regroup(Render(ns[0], outer), RenderAll(ns[1..], outer), rest);
      Regroup(first, more, Read(rest, open));
      SameScopesAppend(first, Scopes(ns[0], outer), more, ScopesAll(ns[1..], outer));
      rs := first + more;
    }
  }

  lemma Regroup<T>(a: seq<T>, b: seq<T>, c: seq<T>)
    ensures (a + b) + c == a + (b + c)
  {
  }

  /** Canonical form preserves meaning: reading it back gives every element of the document its original scope. */
  lemma CanonicalFormKeepsScopes(doc: seq<Node>)
    ensures SameScopes(Read(RenderAll(doc, []), []), ScopesAll(doc, []))
  {
    var rs := ReadNodes(doc, [], [], []);
    assert RenderAll(doc, []) + [] == RenderAll(doc, []);
    assert rs + Read([], []) == rs;
  }

  // ----- rebuilding the document -----

  /** A node without its declarations: names, nesting, order and text. */
  function Skeleton(n: Node): (r: Node)
    decreases n, 0
  {
    match n
    case Other(text) => Other(text)
    case Element(name, _, kids) => Element(name, [], SkeletonAll(kids))
  }

  function SkeletonAll(ns: seq<Node>): (r: seq<Node>)
    decreases ns, 1
  {
    if ns == [] then [] else [Skeleton(ns[0])] + SkeletonAll(ns[1..])
  }

  /** An element whose closing tag is still to come, and the nodes before it. */
  datatype Unclosed = Unclosed(name: string, before: seq<Node>)

  /** A reader of tokens that builds nodes and checks that each closing tag names the innermost open element. */
  function Rebuild(ts: seq<Token>, done: seq<Node>, open: seq<Unclosed>): (r: Option<seq<Node>>)
    decreases |ts|
  {
    if ts == [] then (if open == [] then Some(done) else None)
    else
      match ts[0]
      case Chars(text) => Rebuild(ts[1..], done + [Other(text)], open)
      case Open(name, _) => Rebuild(ts[1..], [], [Unclosed(name, done)] + open)
      case Close(name) =>
        if open == [] || open[0].name != name then None
        else Rebuild(ts[1..], open[0].before + [Element(name, [], done)], open[1..])
  }

  lemma {:induction false} RebuildNode(n: Node, outer: Axis, rest: seq<Token>, done: seq<Node>, open: seq<Unclosed>)
    ensures Rebuild(Render(n, outer) + rest, done, open) == Rebuild(rest, done + [Skeleton(n)], open)
    decreases n, 0
  {
    match n
    case Other(text) =>
      assert (Render(n, outer) + rest)[1..] == rest;
    case Element(name, own, kids) =>
      var tail, start := [Close(name)] + rest, Open(name, Printed(own, outer));
      var inner := [Unclosed(name, done)] + open;
      assert Render(n, outer) + rest == [start] + (RenderAll(kids, own + outer) + tail);
      RebuildNodes(kids, own + outer, tail, [], inner);
      assert [] + SkeletonAll(kids) == SkeletonAll(kids);
      assert tail[1..] == rest && inner[1..] == open;
  }

  lemma {:induction false} RebuildNodes(ns: seq<Node>, outer: Axis, rest: seq<Token>, done: seq<Node>, open: seq<Unclosed>)
    ensures Rebuild(RenderAll(ns, outer) + rest, done, open) == Rebuild(rest, done + SkeletonAll(ns), open)
    decreases ns, 1
  {
    if ns == [] {
      assert RenderAll(ns, outer) + rest == rest && done + SkeletonAll(ns) == done;
    } else {
      Regroup(Render(ns[0], outer), RenderAll(ns[1..], outer), rest);
      RebuildNode(ns[0], outer, RenderAll(ns[1..], outer) + rest, done, open);
      RebuildNodes(ns[1..], outer, rest, done + [Skeleton(ns[0])], open);
      Regroup(done, [Skeleton(ns[0])], SkeletonAll(ns[1..]));
    }
  }

  /** Reading canonical form back gives the whole document, but for the declarations. */
  lemma CanonicalFormKeepsDocument(doc: seq<Node>)
    ensures Rebuild(RenderAll(doc, []), [], []) == Some(SkeletonAll(doc))
  {
    RebuildNodes(doc, [], [], [], []);
    assert RenderAll(doc, []) + [] == RenderAll(doc, []) && [] + SkeletonAll(doc) == SkeletonAll(doc);
  }

  /** A whole document, from an empty stack: what is written reads back as the document, with the scopes it had. */
  method Canonicalize(doc: seq<Node>) returns (out: seq<Token>)
    ensures Rebuild(out, [], []) == Some(SkeletonAll(doc))
    ensures SameScopes(Read(out, []), ScopesAll(doc, []))
  {
    var c := new Canonicalizer();
    c.ProcessAll(doc, []);
    out := c.out;
    assert [] + RenderAll(doc, []) == RenderAll(doc, []);
    CanonicalFormKeepsDocument(doc);
    CanonicalFormKeepsScopes(doc);
  }
}
