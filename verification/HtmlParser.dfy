/**
 * The HTML parser object (testbed/libxml2/HTMLparser.c): its methods move the
 * input position, the name and node stacks and the event log as the functions
 * of HtmlTags say, and keep the stacks in shape.
 */
module HtmlParser {
  import Bits
  import opened Options
  import opened HtmlTags

  class Parser {
    const env: Setting

    var cur: nat
    var names: Stack
    var nodes: Stack
    var html: int
    var depth: nat
    var stopped: bool
    var log: Log

    constructor (env: Setting)
      ensures this.env == env && Inv() && Sound(env, Now()) && Now() == Mach(0, Bottom, 1, 0, false, Nothing)
    {
      this.env := env;
      cur, names, nodes, html, depth, stopped, log := 0, Bottom, Bottom, 1, 0, false, Nothing;
    }

    /** The position lies in the data, and the stacks agree until the tree gets too deep. */
    ghost predicate Inv()
      reads this`cur, this`names, this`nodes, this`stopped
    {
      cur <= |env.data| && (!stopped ==> nodes == names)
    }

    ghost function Now(): Mach
      reads this
    {
      Mach(cur, names, html, depth, stopped, log)
    }

    function At(k: nat): char
      reads this
    {
      env.Byte(cur + k)
    }

    // ---- Stack operations ----------------------------------------------------

    /** htmlnamePush, then the start event, which pushes a node unless the tree
        is too deep and parsing stops. */
    method Open(e: Event)
      requires Inv()
      modifies this`names, this`nodes, this`html, this`stopped, this`log
      ensures Inv() && Now() == OpenIt(env, old(Now()), e)
      ensures nodes == if Size(old(nodes)) > env.maxDepth then old(nodes) else On(e.tag, old(nodes))
    {
      if html < 3 && e.tag == Head { html := 3; }
      if html < 10 && e.tag == Body { html := 10; }
      names, log := On(e.tag, names), Then(log, e);
      if Size(nodes) > env.maxDepth {
        stopped := true;
      } else {
        nodes := On(e.tag, nodes);
      }
    }

    /** The end event of the innermost element, then htmlnamePop. */
    method Close()
      requires Inv() && names.On?
      modifies this`names, this`nodes, this`log
      ensures Inv() && Now() == CloseIt(old(Now()))
      ensures nodes == if old(nodes).On? then old(nodes).below else Bottom
    {
      if nodes.On? { nodes := nodes.below; }
      names, log := names.below, Then(log, End(names.top));
    }

    /** nodePop and htmlnamePop, with no end event. */
    method DropTop()
      requires Inv() && names.On?
      modifies this`names, this`nodes, this`log
      ensures Inv() && Now() == DropIt(old(Now()))
      ensures nodes == if old(nodes).On? then old(nodes).below else Bottom
    {
      if nodes.On? { nodes := nodes.below; }
      names, log := names.below, Then(log, Drop(names.top));
    }

    method AutoClose(t: Tag)
      requires Inv()
      modifies this`names, this`nodes, this`log
      ensures Inv() && Now() == AutoCloseIt(env, old(Now()), t)
    {
      while names.On? && env.tables.Closes(t, names.top)
        invariant Inv()
        invariant AutoCloseIt(env, Now(), t) == AutoCloseIt(env, old(Now()), t)
        decreases names
      {
        Close();
      }
    }

    /** Close everything inside the element that an end tag reaches, if it reaches one. */
    method AutoCloseOnClose(t: Tag)
      requires Inv()
      modifies this`names, this`nodes, this`log
      ensures Inv()
      ensures var r := Reach(env.tables, old(names), t);
        Now() == if r.Some? then CloseDown(old(Now()), r.value) else old(Now())
    {
      ghost var reach := Reach(env.tables, names, t);
      var rest := names;
      while rest.On? && rest.top != t
        invariant Reach(env.tables, rest, t) == reach
        decreases rest
      {
        if env.tables.Rank(rest.top) > env.tables.Rank(t) { return; }
        rest := rest.below;
      }
      if rest.On? { CloseTo(t); }
    }

    method CloseTo(t: Tag)
      requires Inv() && Reach(env.tables, names, t).Some?
      modifies this`names, this`nodes, this`log
      ensures Inv() && Now() == CloseDown(old(Now()), Reach(env.tables, old(names), t).value)
    {
      ghost var left := Reach(env.tables, names, t);
      while names.top != t
        invariant Inv() && names.On? && Reach(env.tables, names, t) == left
        invariant CloseDown(Now(), left.value) == CloseDown(old(Now()), left.value)
        decreases names
      {
        SmallerReach(env.tables, names, t);
        Close();
      }
    }

    /** Close all remaining elements at the end of the stream. */
    method AutoCloseOnEnd()
      requires Inv()
      modifies this`names, this`nodes, this`log
      ensures Inv() && Now() == EndAllIt(old(Now())) && names == Bottom
    {
      while names.On?
        invariant Inv()
        invariant CloseDown(Now(), Bottom) == EndAllIt(old(Now()))
        decreases names
      {
        Close();
      }
    }

    method CheckImplied(t: Tag)
      requires Inv()
      modifies this`names, this`nodes, this`html, this`stopped, this`log
      ensures Inv() && Now() == ImplyIt(env, old(Now()), t)
    {
      if env.noImplied || !env.omitted || t == Html { return; }
      if names.Bottom? { Open(Imply(Html)); }
      CheckImpliedInner(t);
    }

    method CheckImpliedInner(t: Tag)
      requires Inv() && names.On? && t != Html
      modifies this`names, this`nodes, this`html, this`stopped, this`log
      ensures Inv() && Now() == ImplyInnerIt(env, old(Now()), t)
    {
      if t == Body || t == Head { return; }
      if Size(names) <= 1 && InHead(t) {
        if html >= 3 { return; }
        Open(Imply(Head));
      } else if t != Noframes && t != Frame && t != Frameset {
        if html >= 10 { return; }
        var found := HasBodyOrHead();
        if !found { Open(Imply(Body)); }
      }
    }

    method HasBodyOrHead() returns (found: bool)
      ensures found == (Holds(names, Body) || Holds(names, Head))
    {
      var rest := names;
      while rest.On?
        invariant (Holds(names, Body) || Holds(names, Head)) == (Holds(rest, Body) || Holds(rest, Head))
        decreases rest
      {
        if rest.top == Body || rest.top == Head { return true; }
        rest := rest.below;
      }
      found := false;
    }

    /** Text directly in the document, in `html` or in `head` gets a paragraph. */
    method CheckParagraph() returns (added: bool)
      requires Inv()
      modifies this`names, this`nodes, this`html, this`stopped, this`log
      ensures Inv() && Now() == ParagraphIt(env, old(Now()))
      ensures added == NeedsParagraph(env, old(names))
    {
      added := names.Bottom? || (env.omitted && (names.top == Html || names.top == Head));
      if added {
        AutoClose(P);
        CheckImplied(P);
        Open(Imply(P));
      }
    }

    // ---- Tags -------------------------------------------------------------------

    method Take(least: nat)
      requires cur + least <= |env.data|
      modifies this`cur
      ensures cur == env.Past(old(cur), least)
    {
      cur := env.Past(cur, least);
    }

    method ParseName() returns (name: string)
      requires Inv()
      modifies this`cur
      ensures Inv() && name == env.NameAt(old(cur), true) && cur == old(cur) + |name|
    {
      ghost var start := cur;
      name := "";
      while |name| < 100 && cur < |env.data| && IsNameChar(env.data[cur], true)
        invariant cur == start + |name| <= |env.data| && |name| <= 100
        invariant name + NameFrom(env.data, cur, true, 100 - |name|) == NameFrom(env.data, start, true, 100)
        decreases |env.data| - cur
      {
        name := name + [Bits.Lower(env.data[cur])];
        cur := cur + 1;
      }
      assert NameFrom(env.data, cur, true, 100 - |name|) == "";
    }

    /** Returns -1 without a name, 1 when the tag is discarded, 0 otherwise. */
    method ParseStartTag() returns (r: int)
      requires Inv() && At(0) == '<'
      modifies this
      ensures Inv() && -1 <= r <= 1
      ensures r == -1 <==> !StartsName(old(At(1)))
      ensures r == -1 ==> Now() == old(Now()).(cur := env.Past(old(cur) + 1, 0))
      ensures r != -1 ==>
        Now() == StartIt(env, old(Now()).(cur := old(cur) + 1 + |env.NameAt(old(cur) + 1, true)|), env.TagAt(old(cur) + 1))
      ensures r == 1 <==> depth == old(depth) + 1
    {
      var t := ReadStart();
      if t.None? { Take(0); return -1; }
      var discard := StartElement(t.value);
      r := if discard then 1 else 0;
    }

    method ReadStart() returns (t: Option<Tag>)
      requires Inv() && At(0) == '<'
      modifies this`cur
      ensures Inv() && t == (if StartsName(old(At(1))) then Some(env.TagAt(old(cur) + 1)) else None)
      ensures cur == old(cur) + 1 + if t.None? then 0 else |env.NameAt(old(cur) + 1, true)|
    {
      cur := cur + 1;
      if !StartsName(At(0)) { return None; }
      var name := ParseName();
      t := Some(env.tables.Named(name));
    }

    /** A start tag whose name has been read. */
    method StartElement(t: Tag) returns (discard: bool)
      requires Inv()
      modifies this
      ensures Inv() && Now() == StartIt(env, old(Now()), t)
      ensures depth == old(depth) + if discard then 1 else 0
      ensures !discard ==> Top(names) == Some(t)
    {
      discard := Prepare(t);
      if discard { depth := depth + 1; }
      Take(0);
      if !discard { Open(Start(t)); }
    }

    /** Everything a start tag does before its attributes are read. */
    method Prepare(t: Tag) returns (discard: bool)
      requires Inv()
      modifies this`names, this`nodes, this`html, this`stopped, this`log
      ensures Inv() && Now() == PrepareIt(env, old(Now()), t)
      ensures discard == Misplaced(names, t)
    {
      AutoClose(t);
      CheckImplied(t);
      discard := Discarded(t);
    }

    /** The three placement checks of a start tag. */
    method Discarded(t: Tag) returns (discard: bool)
      requires Inv()
      ensures discard == Misplaced(names, t)
    {
      discard := (names.On? && t == Html) || (Size(names) != 1 && t == Head);
      if t == Body {
        var rest := names;
        while rest.On?
          invariant Holds(names, Body) == (discard || Holds(rest, Body))
          decreases rest
        {
          if rest.top == Body { discard := true; }
          rest := rest.below;
        }
      }
    }

    /** Returns whether an element was closed by name. */
    method ParseEndTag() returns (closed: bool)
      requires Inv() && At(0) == '<' && At(1) == '/'
      modifies this
      ensures Inv() && (Now(), closed) == EndTagIt(env, old(Now()))
    {
      var t := ReadEnd();
      closed := false;
      if t.Some? { closed := EndNamed(t.value); }
    }

    method ReadEnd() returns (t: Option<Tag>)
      requires Inv() && At(0) == '<' && At(1) == '/'
      modifies this`cur
      ensures Inv() && t == if StartsName(old(At(2))) then Some(env.TagAt(old(cur) + 2)) else None
      ensures var k := env.Past(old(cur) + 2 + |env.NameAt(old(cur) + 2, true)|, 0);
        cur == if t.None? then old(cur) + 2 else if env.Byte(k) == '>' then k + 1 else k
    {
      cur := cur + 2;
      if !StartsName(At(0)) { return None; }
      var name := ParseName();
      t := Some(env.tables.Named(name));
      Take(0);
      if At(0) == '>' { cur := cur + 1; }
    }

    method EndNamed(t: Tag) returns (closed: bool)
      requires Inv()
      modifies this`depth, this`names, this`nodes, this`log
      ensures Inv() && (Now(), closed) == EndNamedIt(env, old(Now()), t)
    {
      if depth > 0 && (t == Html || t == Body || t == Head) {
        depth := depth - 1;
        return false;
      }
      closed := CloseByName(t);
    }

    /** Close everything down to the innermost element `t` and `t` itself. */
    method CloseByName(t: Tag) returns (closed: bool)
      requires Inv()
      modifies this`names, this`nodes, this`log
      ensures Inv()
      ensures var r := Reach(env.tables, old(names), t);
        && closed == r.Some?
        && (closed ==> CloseDown(old(Now()), r.value).names.On? && Now() == CloseIt(CloseDown(old(Now()), r.value)))
        && (!closed ==> Now() == old(Now()))
    {
      ReachHolds(env.tables, names, t);
      if !Holds(names, t) { return false; }
      ghost var m := Now();
      if Reach(env.tables, names, t).Some? { ReachedDown(env.tables, m, t); }
      AutoCloseOnClose(t);
      closed := names.top == t;
      if closed { Close(); }
    }

    method FinishElement()
      requires Inv()
      modifies this`names, this`nodes, this`log
      ensures Inv() && Now() == FinishElementIt(env, old(Now()))
    {
      if At(0) == '\0' { AutoCloseOnEnd(); }
    }

    method ParseElement()
      requires Inv() && At(0) == '<'
      modifies this
      ensures Inv() && Now() == ElementIt(env, old(Now()))
    {
      var failed := ParseStartTag();
      if failed == -1 || names.Bottom? {
        if At(0) == '>' { cur := cur + 1; }
        return;
      }
      FinishTag();
    }

    /** What follows the attributes of a start tag. */
    method FinishTag()
      requires Inv() && names.On?
      modifies this
      ensures Inv() && Now() == FinishTagIt(env, old(Now()))
    {
      var t := names.top;
      if At(0) == '/' && At(1) == '>' {
        cur := cur + 2;
        Close();
        return;
      }
      if At(0) != '>' {
        DropTop();
        FinishElement();
        return;
      }
      cur := cur + 1;
      if env.tables.HasNoContent(t) { Close(); }
    }

    // ---- Content -----------------------------------------------------------------

    /** Runs of text; each run may ask for a paragraph. */
    method ParseText()
      requires Inv() && !EndsText(At(0))
      modifies this
      ensures Inv() && Now() == TextIt(env, old(Now()))
    {
      var first := true;
      while first || (!stopped && !EndsText(At(0)))
        invariant Inv()
        invariant first ==> Now() == old(Now())
        invariant (if first || (!stopped && !EndsText(At(0))) then TextIt(env, Now()) else Now()) == TextIt(env, old(Now()))
        decreases first, |env.data| - cur
      {
        var at := cur;
        first := false;
        Take(1);
        if !stopped && env.IsText(at) { var _ := CheckParagraph(); }
      }
    }

    method ParseReference()
      requires Inv() && At(0) == '&'
      modifies this
      ensures Inv() && Now() == ReferenceIt(env, old(Now()))
    {
      var at := cur;
      Take(if At(1) == '#' then 2 else 1);
      if env.IsText(at) { var _ := CheckParagraph(); }
    }

    /** Markup that is neither a tag nor text: it leaves the stack alone. */
    method ParseOther()
      requires Inv() && At(0) == '<'
      modifies this`cur
      ensures Inv() && cur == OtherEnd(env, old(cur))
    {
      if At(1) == '!' && DoctypeAt(env, cur) {
        Take(9);
      } else if At(1) == '!' && At(2) == '-' && At(3) == '-' {
        Take(4);
      } else if At(1) == '!' {
        Take(1);
      } else if At(1) == '?' {
        Take(2);
      } else {
        cur := cur + 1;
      }
    }

    /** The content loop: it ends on every input, and unless the tree got too
        deep it ends at a zero byte with every element closed. */
    method ParseContent()
      requires Inv() && Sound(env, Now())
      modifies this
      ensures Inv() && Sound(env, Now())
      ensures Now() == Run(env, Noted(old(Now())))
      ensures stopped || (At(0) == '\0' && names == Bottom && nodes == Bottom && Replay(log) == Some(Bottom))
    {
      RunSound(env, Noted(Now()));
      var level: nat, node := Size(names), Top(names);
      var over := false;
      while !stopped && !over
        invariant Inv()
        invariant over ==> At(0) == '\0' && names == Bottom
        invariant (if over then Now() else Run(env, Loop(Now(), level, node))) == Run(env, Noted(old(Now())))
        decreases !over, |env.data| - cur, Size(names), Mismatch(Loop(Now(), level, node))
      {
        ghost var l := Loop(Now(), level, node);
        if OneTurn(env, l).Next? { TurnFalls(env, l); }
        over, level, node := TakeTurn(level, node);
      }
    }

    /** The body of the loop. */
    method TakeTurn(level: nat, node: Option<Tag>) returns (over: bool, level': nat, node': Option<Tag>)
      requires Inv()
      modifies this
      ensures Inv() && (over ==> At(0) == '\0' && names == Bottom)
      ensures OneTurn(env, Loop(old(Now()), level, node)) == if over then Done(Now()) else Next(Loop(Now(), level', node'))
    {
      over, level', node' := false, level, node;
      if At(0) == '<' && At(1) == '/' {
        var closed := ParseEndTag();
        if closed && (node.Some? || names.Bottom?) { level', node' := Size(names), Top(names); }
        return;
      }
      if At(0) == '<' && TagStarts(At(1)) {
        var t := env.tables.Named(env.NameAt(cur + 1, false));
        if names.On? && env.tables.Closes(t, names.top) {
          AutoClose(t);
          return;
        }
      }
      over, level', node' := TakePlainTurn(level, node);
    }

    /** The rest of the body, once tags that close something are out of the way. */
    method TakePlainTurn(level: nat, node: Option<Tag>) returns (over: bool, level': nat, node': Option<Tag>)
      requires Inv()
      modifies this
      ensures Inv() && (over ==> At(0) == '\0' && names == Bottom)
      ensures PlainTurn(env, Loop(old(Now()), level, node)) == if over then Done(Now()) else Next(Loop(Now(), level', node'))
    {
      over, level', node' := false, level, node;
      if names.On? && level >= Size(names) && node != Top(names) {
        FinishElement();
        level', node' := Size(names), Top(names);
      } else if At(0) != '\0' && (node == Some(Script) || node == Some(Style)) {
        Take(1);
      } else if At(0) == '<' && IsLetter(At(1)) {
        ParseElement();
        level', node' := Size(names), Top(names);
      } else if At(0) == '<' {
        ParseOther();
      } else if At(0) == '&' {
        ParseReference();
      } else if At(0) == '\0' {
        AutoCloseOnEnd();
        over := true;
      } else {
        ParseText();
      }
    }
  }

  lemma SmallerReach(tables: Tables, names: Stack, t: Tag)
    requires Reach(tables, names, t).Some? && names.top != t
    ensures Reach(tables, names.below, t) == Reach(tables, names, t) && names != Reach(tables, names, t).value
  {
  }

  lemma {:induction false} ReachHolds(tables: Tables, names: Stack, t: Tag)
    ensures Reach(tables, names, t).Some? ==> Holds(names, t)
  {
    if names.On? { ReachHolds(tables, names.below, t); }
  }
}
