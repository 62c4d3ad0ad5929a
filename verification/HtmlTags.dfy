/**
 * The element stack of the HTML parser (testbed/libxml2/HTMLparser.c): how
 * start tags, end tags and text open and close elements, given and implied,
 * and what one turn of the content loop does.
 *
 * The tables (which tag closes which, end-tag priorities, elements without
 * content) are arbitrary. So is what the leaf parsers consume beyond the bytes
 * they always skip: `extra` says how many more bytes the construct at a
 * position takes, `texts` whether text there asks for a paragraph.
 */
module HtmlTags {
  import Bits
  import opened Options

  /** Element names; the ones the machine singles out, and all others. */
  datatype Tag = Html | Head | Body | P | Script | Style | Meta | Link | Title
               | Base | Noframes | Frame | Frameset | Other(spelling: string)

  datatype Tables = Tables(
    tag: string -> Tag,          // what a lower-case spelling names
    closes: (Tag, Tag) -> bool,  // the new tag closes the old one
    priority: Tag -> int,
    empty: Tag -> bool)
  {
    function Named(s: string): Tag { tag(s) }
    predicate Closes(t: Tag, old': Tag) { closes(t, old') }
    function Rank(t: Tag): int { priority(t) }
    predicate HasNoContent(t: Tag) { empty(t) }
  }

  // ---- What the tree builder sees ------------------------------------------

  /**
   * Start and end events. `Start` is for an element the input names, `Imply` for
   * one it leaves out; `Drop` marks an element closed without an event.
   */
  datatype Event = Start(tag: Tag) | Imply(tag: Tag) | End(tag: Tag) | Drop(tag: Tag)

  /** Elements by their names, innermost on top. */
  datatype Stack = Bottom | On(top: Tag, below: Stack)

  /** Events, the latest last. */
  datatype Log = Nothing | Then(before: Log, last: Event)

  function Size(names: Stack): (n: nat) { if names.Bottom? then 0 else 1 + Size(names.below) }

  predicate Holds(names: Stack, t: Tag) { names.On? && (names.top == t || Holds(names.below, t)) }

  function Top(names: Stack): Option<Tag> { if names.Bottom? then None else Some(names.top) }

  /** The elements open after `log`, if every closing names the innermost one. */
  function Replay(log: Log): Option<Stack>
  {
    if log.Nothing? then Some(Bottom)
    else
      var before := Replay(log.before);
      if before.None? then None else Replayed(before.value, log.last)
  }

  function Replayed(open: Stack, e: Event): Option<Stack>
  {
    if e.Start? || e.Imply? then Some(On(e.tag, open))
    else if open.On? && open.top == e.tag then Some(open.below)
    else None
  }

  /** A log as a sequence. */
  function Listed(log: Log): seq<Event> { if log.Nothing? then [] else Listed(log.before) + [log.last] }

  /** A stack as a sequence, outermost first. */
  function Names(names: Stack): (s: seq<Tag>)
    ensures |s| == Size(names)
  {
    if names.Bottom? then [] else Names(names.below) + [names.top]
  }

  // ---- The shape of the stack ------------------------------------------------

  predicate OnlyAt(names: seq<Tag>, t: Tag, k: nat)
  {
    forall i :: 0 <= i < |names| && names[i] == t ==> i == k
  }

  predicate AtMostOnce(names: seq<Tag>, t: Tag)
  {
    forall i, j :: 0 <= i < j < |names| ==> !(names[i] == t && names[j] == t)
  }

  /** `html` is at the bottom only, `head` right above it, `body` unique, and with implied tags `html` is at the bottom. */
  predicate Shape(names: seq<Tag>, implied: bool)
  {
    && OnlyAt(names, Html, 0) && OnlyAt(names, Head, 1) && AtMostOnce(names, Body)
    && (implied && names != [] ==> names[0] == Html)
  }

  /** The tag may be opened on this stack. */
  predicate Fits(names: Stack, t: Tag, implied: bool)
  {
    && (t == Html ==> names.Bottom?)
    && (t == Head ==> Size(names) == 1)
    && (t == Body ==> !Holds(names, Body))
    && (implied && names.Bottom? ==> t == Html)
  }

  /** Every element was opened where it may be. */
  predicate InShape(names: Stack, implied: bool)
  {
    names.On? ==> InShape(names.below, implied) && Fits(names.below, names.top, implied)
  }

  lemma {:induction false} NamesHold(names: Stack, t: Tag)
    ensures t in Names(names) <==> Holds(names, t)
  {
    if names.On? { NamesHold(names.below, t); }
  }

  lemma {:induction false} ShapeMeans(names: Stack, implied: bool)
    requires InShape(names, implied)
    ensures Shape(Names(names), implied)
  {
    if names.On? {
      ShapeMeans(names.below, implied);
      NamesHold(names.below, Body);
    }
  }

  // ---- What opening and closing tags does to the stack ------------------------

  /** The stack that is left when an end tag has closed down to its own element: the
      innermost one of that name, unless one of higher priority hides it. */
  function Reach(tables: Tables, names: Stack, t: Tag): (r: Option<Stack>)
    ensures r.Some? ==> r.value.On? && r.value.top == t && Size(r.value) <= Size(names)
  {
    if names.Bottom? then None
    else if names.top == t then Some(names)
    else if tables.Rank(names.top) > tables.Rank(t) then None
    else Reach(tables, names.below, t)
  }

  /** Element `i` is the innermost `t`, and nothing inside it outranks `t`. */
  predicate Reachable(tables: Tables, names: seq<Tag>, t: Tag, i: nat)
  {
    && i < |names| && names[i] == t
    && forall j :: i < j < |names| ==> Yields(tables, names[j], t)
  }

  predicate Yields(tables: Tables, u: Tag, t: Tag) { u != t && tables.Rank(u) <= tables.Rank(t) }

  lemma ReachableStep(tables: Tables, inner: seq<Tag>, top: Tag, t: Tag, i: nat)
    requires top != t
    ensures Reachable(tables, inner + [top], t, i) <==> Yields(tables, top, t) && Reachable(tables, inner, t, i)
  {
    var names := inner + [top];
    assert names[|inner|] == top && forall j :: 0 <= j < |inner| ==> names[j] == inner[j];
  }

  /** The search of an end tag finds exactly the reachable element. */
  lemma {:induction false} ReachIsReachable(tables: Tables, names: Stack, t: Tag, i: nat)
    ensures Reachable(tables, Names(names), t, i) <==>
            Reach(tables, names, t).Some? && Size(Reach(tables, names, t).value) == i + 1
  {
    if names.On? && names.top != t {
      ReachableStep(tables, Names(names.below), names.top, t, i);
      ReachIsReachable(tables, names.below, t, i);
    } else if names.On? {
      assert Names(names)[|Names(names.below)|] == t;
    }
  }

  predicate InHead(t: Tag) { t in {Script, Style, Meta, Link, Title, Base} }

  /** A misplaced `html`, `head` or `body` is not opened. */
  predicate Misplaced(names: Stack, t: Tag)
  {
    (t == Html && names.On?) || (t == Head && Size(names) != 1) || (t == Body && Holds(names, Body))
  }

  /** `ctxt->html` after opening an element. */
  function Level(html: int, t: Tag): int
  {
    if t == Head && html < 3 then 3 else if t == Body && html < 10 then 10 else html
  }

  // ---- Names in the input ------------------------------------------------------

  predicate IsLetter(c: char) { 'a' <= c <= 'z' || 'A' <= c <= 'Z' }

  predicate IsNameChar(c: char, dots: bool)
  {
    IsLetter(c) || '0' <= c <= '9' || c == ':' || c == '-' || c == '_' || (dots && c == '.')
  }

  /** At most `room` name characters from `at` on, in lower case. */
  function NameFrom(data: string, at: nat, dots: bool, room: nat): (name: string)
    requires at <= |data|
    ensures at + |name| <= |data|
    decreases |data| - at
  {
    if room == 0 || at == |data| || !IsNameChar(data[at], dots) then ""
    else [Bits.Lower(data[at])] + NameFrom(data, at + 1, dots, room - 1)
  }

  // ---- The parser as a value -----------------------------------------------------

  /** What does not change while a document is parsed. */
  datatype Setting = Setting(
    data: string,
    tables: Tables,
    noImplied: bool,
    omitted: bool,           // htmlOmittedDefaultValue
    maxDepth: nat,
    extra: nat -> nat,
    texts: nat -> bool)
  {
    predicate ImpliedOn() { !noImplied && omitted }

    /** The byte at a position; a zero byte follows the data. */
    function Byte(k: nat): char { if k < |data| then data[k] else '\0' }

    predicate IsText(at: nat) { texts(at) }

    /** Where a leaf construct at `at` ends: past the bytes it always takes, and
        as many more as it likes. */
    function Past(at: nat, least: nat): (k: nat)
      requires at + least <= |data|
      ensures at + least <= k <= |data|
    {
      var k := at + least + extra(at);
      if k <= |data| then k else |data|
    }

    function NameAt(at: nat, dots: bool): (name: string)
      requires at <= |data|
      ensures at + |name| <= |data|
    {
      NameFrom(data, at, dots, 100)
    }

    function TagAt(at: nat): Tag
      requires at <= |data|
    {
      tables.Named(NameAt(at, true))
    }
  }

  /** The parts of the parser that the tags change. */
  datatype Mach = Mach(cur: nat, names: Stack, html: int, depth: nat, stopped: bool, log: Log)

  predicate TagStarts(c: char) { IsLetter(c) || c == '_' || c == ':' }

  predicate StartsName(c: char) { IsLetter(c) || c == '_' || c == ':' || c == '.' }

  /** An element is opened; in a tree that is too deep parsing stops. */
  function OpenIt(env: Setting, m: Mach, e: Event): Mach
  {
    m.(names := On(e.tag, m.names), html := Level(m.html, e.tag), log := Then(m.log, e),
       stopped := m.stopped || Size(m.names) > env.maxDepth)
  }

  function CloseIt(m: Mach): Mach
    requires m.names.On?
  {
    m.(names := m.names.below, log := Then(m.log, End(m.names.top)))
  }

  function DropIt(m: Mach): Mach
    requires m.names.On?
  {
    m.(names := m.names.below, log := Then(m.log, Drop(m.names.top)))
  }

  /** A start tag closes elements from the innermost one out, as long as it closes the next. */
  function AutoCloseIt(env: Setting, m: Mach, t: Tag): (r: Mach)
    ensures r.cur == m.cur && r.html == m.html && Size(r.names) <= Size(m.names)
    decreases m.names
  {
    if m.names.On? && env.tables.Closes(t, m.names.top) then AutoCloseIt(env, CloseIt(m), t) else m
  }

  /** It closes the whole run of innermost elements that the tag closes, and nothing else. */
  lemma {:induction false} AutoCloseMeans(env: Setting, m: Mach, t: Tag)
    ensures var left, all := AutoCloseIt(env, m, t).names, Names(m.names);
      && Size(left) <= |all| && Names(left) == all[..Size(left)] && (left.On? ==> !env.tables.Closes(t, left.top))
      && forall i :: Size(left) <= i < |all| ==> env.tables.Closes(t, all[i])
    decreases m.names
  {
    if m.names.On? && env.tables.Closes(t, m.names.top) {
      AutoCloseMeans(env, CloseIt(m), t);
      assert Names(m.names)[..|Names(m.names.below)|] == Names(m.names.below);
    }
  }

  /** Closes elements until the given stack is left, or nothing. */
  function CloseDown(m: Mach, left: Stack): (r: Mach)
    ensures r.cur == m.cur && (r.names == left || r.names == Bottom)
    decreases m.names
  {
    if m.names == left || m.names.Bottom? then m else CloseDown(CloseIt(m), left)
  }

  function ImplyInnerIt(env: Setting, m: Mach, t: Tag): (r: Mach)
    ensures r.cur == m.cur
  {
    if t == Body || t == Head then m
    else if Size(m.names) <= 1 && InHead(t) then (if m.html >= 3 then m else OpenIt(env, m, Imply(Head)))
    else if t == Noframes || t == Frame || t == Frameset then m
    else if m.html >= 10 || Holds(m.names, Body) || Holds(m.names, Head) then m
    else OpenIt(env, m, Imply(Body))
  }

  function ImplyIt(env: Setting, m: Mach, t: Tag): (r: Mach)
    ensures r.cur == m.cur
  {
    if !env.ImpliedOn() || t == Html then m
    else ImplyInnerIt(env, if m.names.Bottom? then OpenIt(env, m, Imply(Html)) else m, t)
  }

  /** Everything a start tag does before its attributes are read. */
  function PrepareIt(env: Setting, m: Mach, t: Tag): (r: Mach)
    ensures r.cur == m.cur
  {
    ImplyIt(env, AutoCloseIt(env, m, t), t)
  }

  /** Text directly in the document, in `html` or in `head` needs a paragraph. */
  predicate NeedsParagraph(env: Setting, names: Stack)
  {
    names.Bottom? || (env.omitted && (names.top == Html || names.top == Head))
  }

  function ParagraphIt(env: Setting, m: Mach): (r: Mach)
    ensures r.cur == m.cur
  {
    if NeedsParagraph(env, m.names) then OpenIt(env, PrepareIt(env, m, P), Imply(P)) else m
  }

  // ---- Tags, as functions -----------------------------------------------------------

  /** A start tag whose name has been read. */
  function StartIt(env: Setting, m: Mach, t: Tag): (r: Mach)
    requires m.cur <= |env.data|
    ensures r.cur == env.Past(m.cur, 0)
  {
    var p := PrepareIt(env, m, t);
    if Misplaced(p.names, t) then p.(depth := p.depth + 1, cur := env.Past(p.cur, 0))
    else OpenIt(env, p.(cur := env.Past(p.cur, 0)), Start(t))
  }

  function EndAllIt(m: Mach): Mach { CloseDown(m, Bottom) }

  function FinishElementIt(env: Setting, m: Mach): (r: Mach)
    ensures r.cur == m.cur
  {
    if env.Byte(m.cur) == '\0' then EndAllIt(m) else m
  }

  /** What follows the attributes of a start tag: an element without content is
      closed at once, and one whose tag is unfinished is dropped. */
  function FinishTagIt(env: Setting, m: Mach): (r: Mach)
    requires m.cur <= |env.data| && m.names.On?
    ensures m.cur <= r.cur <= |env.data|
  {
    if env.Byte(m.cur) == '/' && env.Byte(m.cur + 1) == '>' then CloseIt(m.(cur := m.cur + 2))
    else if env.Byte(m.cur) != '>' then FinishElementIt(env, DropIt(m))
    else if env.tables.HasNoContent(m.names.top) then CloseIt(m.(cur := m.cur + 1))
    else m.(cur := m.cur + 1)
  }

  function SkipCloseIt(env: Setting, m: Mach): (r: Mach)
    requires m.cur <= |env.data|
    ensures m.cur <= r.cur <= |env.data|
  {
    if env.Byte(m.cur) == '>' then m.(cur := m.cur + 1) else m
  }

  /** A whole start tag, from behind its name on. */
  function NamedElementIt(env: Setting, m: Mach, t: Tag): (r: Mach)
    requires m.cur <= |env.data|
    ensures m.cur <= r.cur <= |env.data|
  {
    var s := StartIt(env, m, t);
    if s.names.Bottom? then SkipCloseIt(env, s) else FinishTagIt(env, s)
  }

  function ElementIt(env: Setting, m: Mach): (r: Mach)
    requires m.cur < |env.data|
    ensures m.cur < r.cur <= |env.data|
  {
    var at := m.cur + 1;
    if !StartsName(env.Byte(at)) then SkipCloseIt(env, m.(cur := env.Past(at, 0)))
    else NamedElementIt(env, m.(cur := at + |env.NameAt(at, true)|), env.TagAt(at))
  }

  /** The end tag at `cur`, and whether it closed an element by name. */
  function EndTagIt(env: Setting, m: Mach): (r: (Mach, bool))
    requires m.cur + 2 <= |env.data|
    ensures m.cur + 2 <= r.0.cur <= |env.data|
  {
    var at := m.cur + 2;
    if !StartsName(env.Byte(at)) then (m.(cur := at), false)
    else EndNamedIt(env, SkipCloseIt(env, m.(cur := env.Past(at + |env.NameAt(at, true)|, 0))), env.TagAt(at))
  }

  /** The innermost element that is reached is met on the way down. */
  lemma {:induction false} ReachedDown(tables: Tables, m: Mach, t: Tag)
    requires Reach(tables, m.names, t).Some?
    ensures CloseDown(m, Reach(tables, m.names, t).value).names == Reach(tables, m.names, t).value
    decreases m.names
  {
    if m.names.top != t { ReachedDown(tables, CloseIt(m), t); }
  }

  /** An end tag whose name has been read. */
  function EndNamedIt(env: Setting, m: Mach, t: Tag): (r: (Mach, bool))
    ensures r.0.cur == m.cur
  {
    if m.depth > 0 && (t == Html || t == Body || t == Head) then (m.(depth := m.depth - 1), false)
    else
      var k := Reach(env.tables, m.names, t);
      if k.None? then (m, false)
      else
        ReachedDown(env.tables, m, t);
        (CloseIt(CloseDown(m, k.value)), true)
  }

  lemma {:induction false} AutoCloseDepth(env: Setting, m: Mach, t: Tag)
    ensures AutoCloseIt(env, m, t).depth == m.depth
    decreases m.names
  {
    if m.names.On? && env.tables.Closes(t, m.names.top) { AutoCloseDepth(env, CloseIt(m), t); }
  }

  /** Reading a start tag that is discarded and then its end tag by name closes and opens nothing
      but what the start tag closes and implies, and counts up and down. */
  lemma DiscardedPair(env: Setting, m: Mach, t: Tag)
    requires m.cur <= |env.data| && Misplaced(PrepareIt(env, m, t).names, t)
    ensures EndNamedIt(env, StartIt(env, m, t), t) == (PrepareIt(env, m, t).(cur := env.Past(m.cur, 0)), false)
  {
    AutoCloseDepth(env, m, t);
    assert PrepareIt(env, m, t).depth == m.depth;
  }

  /**
   * What ends a discarded start tag is taken for the end of the innermost element's. So that element stays
   * open if and only if the tag ends with `>` and the element may have content.
   */
  lemma DiscardedKeepsOpen(env: Setting, m: Mach, t: Tag)
    requires m.cur <= |env.data| && Misplaced(PrepareIt(env, m, t).names, t)
    ensures var names, c := PrepareIt(env, m, t).names, env.Byte(env.Past(m.cur, 0));
      NamedElementIt(env, m, t).names == names
      <==> names.Bottom? || (c == '>' && !env.tables.HasNoContent(names.top))
  {
    var s := StartIt(env, m, t);
    if s.names.On? { assert Size(s.names.below) < Size(s.names); }
  }

  // ---- Content, as functions ----------------------------------------------------------

  predicate EndsText(c: char) { c == '<' || c == '&' || c == '\0' }

  /** Runs of text; each run may ask for a paragraph. */
  function TextIt(env: Setting, m: Mach): (r: Mach)
    requires m.cur < |env.data|
    ensures m.cur < r.cur <= |env.data|
    decreases |env.data| - m.cur
  {
    var taken := m.(cur := env.Past(m.cur, 1));
    var run := if !m.stopped && env.IsText(m.cur) then ParagraphIt(env, taken) else taken;
    if run.stopped || EndsText(env.Byte(run.cur)) then run else TextIt(env, run)
  }

  function ReferenceIt(env: Setting, m: Mach): (r: Mach)
    requires m.cur < |env.data|
    ensures m.cur < r.cur <= |env.data|
  {
    var least := if env.Byte(m.cur + 1) == '#' then 2 else 1;
    var taken := m.(cur := env.Past(m.cur, least));
    if env.IsText(m.cur) then ParagraphIt(env, taken) else taken
  }

  function UpperAt(env: Setting, k: nat): char
  {
    if 'a' <= env.Byte(k) <= 'z' then (env.Byte(k) as int - 0x20) as char else env.Byte(k)
  }

  predicate DoctypeAt(env: Setting, at: nat)
  {
    && UpperAt(env, at + 2) == 'D' && UpperAt(env, at + 3) == 'O' && UpperAt(env, at + 4) == 'C'
    && UpperAt(env, at + 5) == 'T' && UpperAt(env, at + 6) == 'Y' && UpperAt(env, at + 7) == 'P'
    && UpperAt(env, at + 8) == 'E'
  }

  /** Where markup that is neither a tag nor text ends. */
  function OtherEnd(env: Setting, at: nat): (k: nat)
    requires at < |env.data|
    ensures at < k <= |env.data|
  {
    if env.Byte(at + 1) == '!' then
      env.Past(at, if DoctypeAt(env, at) then 9 else if env.Byte(at + 2) == '-' && env.Byte(at + 3) == '-' then 4 else 1)
    else if env.Byte(at + 1) == '?' then env.Past(at, 2)
    else at + 1
  }

  /** The content loop between two turns: the parser, and the element it last noted. */
  datatype Loop = Loop(m: Mach, level: nat, node: Option<Tag>)

  datatype Turn = Done(m: Mach) | Next(loop: Loop)

  function Noted(m: Mach): Loop { Loop(m, Size(m.names), Top(m.names)) }

  /** The innermost element is not the one the loop last noted. */
  predicate Mismatch(l: Loop) { l.m.names.On? && l.level >= Size(l.m.names) && l.node != Top(l.m.names) }

  /** The loop is inside a script or style sheet, which is taken as it stands. */
  predicate Raw(l: Loop) { l.node == Some(Script) || l.node == Some(Style) }

  /** A start tag closes the innermost element before it is parsed. */
  predicate ClosesFirst(env: Setting, l: Loop)
    requires l.m.cur < |env.data|
  {
    && TagStarts(env.Byte(l.m.cur + 1)) && l.m.names.On?
    && env.tables.Closes(env.tables.Named(env.NameAt(l.m.cur + 1, false)), l.m.names.top)
  }

  function ClosingTurn(env: Setting, l: Loop): Mach
    requires l.m.cur < |env.data|
  {
    AutoCloseIt(env, l.m, env.tables.Named(env.NameAt(l.m.cur + 1, false)))
  }

  /** One turn, once tags that close something are out of the way. */
  function PlainTurn(env: Setting, l: Loop): Turn
    requires l.m.cur <= |env.data|
  {
    var m, c := l.m, env.Byte(l.m.cur);
    if Mismatch(l) then Next(Noted(FinishElementIt(env, m)))
    else if c != '\0' && Raw(l) then Next(l.(m := m.(cur := env.Past(m.cur, 1))))
    else if c == '<' && IsLetter(env.Byte(m.cur + 1)) then Next(Noted(ElementIt(env, m)))
    else if c == '<' then Next(l.(m := m.(cur := OtherEnd(env, m.cur))))
    else if c == '&' then Next(l.(m := ReferenceIt(env, m)))
    else if c == '\0' then Done(EndAllIt(m))
    else Next(l.(m := TextIt(env, m)))
  }

  function OneTurn(env: Setting, l: Loop): Turn
    requires l.m.cur <= |env.data|
  {
    var m := l.m;
    if env.Byte(m.cur) == '<' && env.Byte(m.cur + 1) == '/' then
      var (after, closed) := EndTagIt(env, m);
      Next(if closed && (l.node.Some? || after.names.Bottom?) then Noted(after) else l.(m := after))
    else if env.Byte(m.cur) == '<' && ClosesFirst(env, l) then Next(l.(m := ClosingTurn(env, l)))
    else PlainTurn(env, l)
  }

  /** What falls with every turn: bytes left, then elements open, then whether the loop has to note anew. */
  lemma TurnFalls(env: Setting, l: Loop)
    requires l.m.cur <= |env.data| && OneTurn(env, l).Next?
    ensures var l' := OneTurn(env, l).loop;
      && l.m.cur <= l'.m.cur <= |env.data|
      && (l'.m.cur == l.m.cur ==> Size(l'.m.names) < Size(l.m.names) || (Size(l'.m.names) == Size(l.m.names) && Mismatch(l) && !Mismatch(l')))
  {
  }

  /** The whole loop. */
  function Run(env: Setting, l: Loop): Mach
    requires l.m.cur <= |env.data|
    decreases |env.data| - l.m.cur, Size(l.m.names), Mismatch(l)
  {
    if l.m.stopped then l.m
    else
      var t := OneTurn(env, l);
      if t.Done? then t.m
      else
        TurnFalls(env, l);
        Run(env, t.loop)
  }

  // ---- What every step keeps ---------------------------------------------------------------

  /** The stack is in shape, and it is what the events leave open. */
  predicate Sound(env: Setting, m: Mach)
  {
    && InShape(m.names, env.ImpliedOn())
    && Replay(m.log) == Some(m.names)
    && (Holds(m.names, Body) ==> m.html >= 10)
  }

  /** Moving on changes nothing about the stack. */
  lemma MovedSound(env: Setting, m: Mach, r: Mach)
    requires Sound(env, m) && r.names == m.names && r.log == m.log && r.html == m.html
    ensures Sound(env, r)
  {
  }

  lemma OpenSound(env: Setting, m: Mach, e: Event)
    requires Sound(env, m) && (e.Start? || e.Imply?) && Fits(m.names, e.tag, env.ImpliedOn())
    ensures Sound(env, OpenIt(env, m, e))
  {
  }

  lemma CloseSound(env: Setting, m: Mach)
    requires Sound(env, m) && m.names.On?
    ensures Sound(env, CloseIt(m)) && Sound(env, DropIt(m))
  {
  }

  lemma {:induction false} AutoCloseSound(env: Setting, m: Mach, t: Tag)
    requires Sound(env, m)
    ensures Sound(env, AutoCloseIt(env, m, t))
    decreases m.names
  {
    if m.names.On? && env.tables.Closes(t, m.names.top) {
      CloseSound(env, m);
      AutoCloseSound(env, CloseIt(m), t);
    }
  }

  lemma {:induction false} CloseDownSound(env: Setting, m: Mach, left: Stack)
    requires Sound(env, m)
    ensures Sound(env, CloseDown(m, left))
    decreases m.names
  {
    if m.names != left && m.names.On? {
      CloseSound(env, m);
      CloseDownSound(env, CloseIt(m), left);
    }
  }

  lemma ImplySound(env: Setting, m: Mach, t: Tag)
    requires Sound(env, m)
    ensures Sound(env, ImplyIt(env, m, t))
  {
    if env.ImpliedOn() && t != Html {
      var inner := m;
      if m.names.Bottom? {
        OpenSound(env, m, Imply(Html));
        inner := OpenIt(env, m, Imply(Html));
      }
      ImplyInnerSound(env, inner, t);
    }
  }

  lemma ImplyInnerSound(env: Setting, m: Mach, t: Tag)
    requires Sound(env, m) && m.names.On?
    ensures Sound(env, ImplyInnerIt(env, m, t))
  {
    if Size(m.names) <= 1 && InHead(t) {
      OpenSound(env, m, Imply(Head));
    } else if m.html < 10 {
      OpenSound(env, m, Imply(Body));
    }
  }

  lemma PrepareSound(env: Setting, m: Mach, t: Tag)
    requires Sound(env, m)
    ensures Sound(env, PrepareIt(env, m, t))
  {
    AutoCloseSound(env, m, t);
    ImplySound(env, AutoCloseIt(env, m, t), t);
  }

  lemma ImplyFits(env: Setting, m: Mach, t: Tag)
    ensures !Misplaced(ImplyIt(env, m, t).names, t) ==> Fits(ImplyIt(env, m, t).names, t, env.ImpliedOn())
  {
  }

  /** A start tag finds a stack that it may be opened on, unless it is misplaced. */
  lemma PrepareFits(env: Setting, m: Mach, t: Tag)
    ensures !Misplaced(PrepareIt(env, m, t).names, t) ==> Fits(PrepareIt(env, m, t).names, t, env.ImpliedOn())
  {
    ImplyFits(env, AutoCloseIt(env, m, t), t);
  }

  lemma ParagraphSound(env: Setting, m: Mach)
    requires Sound(env, m)
    ensures Sound(env, ParagraphIt(env, m))
  {
    if NeedsParagraph(env, m.names) {
      PrepareSound(env, m, P);
      PrepareFits(env, m, P);
      OpenSound(env, PrepareIt(env, m, P), Imply(P));
    }
  }

  lemma StartSound(env: Setting, m: Mach, t: Tag)
    requires Sound(env, m) && m.cur <= |env.data|
    ensures Sound(env, StartIt(env, m, t))
  {
    PrepareSound(env, m, t);
    PrepareFits(env, m, t);
    var p := PrepareIt(env, m, t);
    if !Misplaced(p.names, t) {
      OpenSound(env, p.(cur := env.Past(p.cur, 0)), Start(t));
    }
  }

  lemma FinishElementSound(env: Setting, m: Mach)
    requires Sound(env, m)
    ensures Sound(env, FinishElementIt(env, m))
  {
    CloseDownSound(env, m, Bottom);
  }

  lemma FinishTagSound(env: Setting, m: Mach)
    requires Sound(env, m) && m.cur <= |env.data| && m.names.On?
    ensures Sound(env, FinishTagIt(env, m))
  {
    CloseSound(env, m);
    FinishElementSound(env, DropIt(m));
    MovedSound(env, m, m.(cur := m.cur + 1));
    MovedSound(env, CloseIt(m), CloseIt(m.(cur := m.cur + 1)));
    MovedSound(env, CloseIt(m), CloseIt(m.(cur := m.cur + 2)));
  }

  lemma ElementSound(env: Setting, m: Mach)
    requires Sound(env, m) && m.cur < |env.data|
    ensures Sound(env, ElementIt(env, m))
  {
    var at := m.cur + 1;
    if StartsName(env.Byte(at)) {
      NamedElement(env, m);
      var n := m.(cur := at + |env.NameAt(at, true)|);
      MovedSound(env, m, n);
      NamedElementSound(env, n, env.TagAt(at));
    } else {
      Nameless(env, m);
      MovedSound(env, m, ElementIt(env, m));
    }
  }

  lemma NamedElement(env: Setting, m: Mach)
    requires m.cur < |env.data| && StartsName(env.Byte(m.cur + 1))
    ensures var at := m.cur + 1;
      ElementIt(env, m) == NamedElementIt(env, m.(cur := at + |env.NameAt(at, true)|), env.TagAt(at))
  {
  }

  lemma Nameless(env: Setting, m: Mach)
    requires m.cur < |env.data| && !StartsName(env.Byte(m.cur + 1))
    ensures ElementIt(env, m) == m.(cur := ElementIt(env, m).cur)
  {
  }

  lemma NamedElementSound(env: Setting, m: Mach, t: Tag)
    requires Sound(env, m) && m.cur <= |env.data|
    ensures Sound(env, NamedElementIt(env, m, t))
  {
    StartSound(env, m, t);
    var s := StartIt(env, m, t);
    if s.names.On? { FinishTagSound(env, s); } else { MovedSound(env, s, SkipCloseIt(env, s)); }
  }

  lemma EndTagSound(env: Setting, m: Mach)
    requires Sound(env, m) && m.cur + 2 <= |env.data|
    ensures Sound(env, EndTagIt(env, m).0)
  {
    var at := m.cur + 2;
    if StartsName(env.Byte(at)) {
      var n := NamedEnd(env, m);
      MovedSound(env, m, n);
      EndNamedSound(env, n, env.TagAt(at));
    } else {
      NamelessEnd(env, m);
      MovedSound(env, m, EndTagIt(env, m).0);
    }
  }

  lemma NamedEnd(env: Setting, m: Mach) returns (n: Mach)
    requires m.cur + 2 <= |env.data| && StartsName(env.Byte(m.cur + 2))
    ensures n == m.(cur := n.cur) && EndTagIt(env, m) == EndNamedIt(env, n, env.TagAt(m.cur + 2))
  {
    n := SkipCloseIt(env, m.(cur := env.Past(m.cur + 2 + |env.NameAt(m.cur + 2, true)|, 0)));
  }

  lemma NamelessEnd(env: Setting, m: Mach)
    requires m.cur + 2 <= |env.data| && !StartsName(env.Byte(m.cur + 2))
    ensures EndTagIt(env, m).0 == m.(cur := m.cur + 2)
  {
  }

  lemma EndNamedSound(env: Setting, m: Mach, t: Tag)
    requires Sound(env, m)
    ensures Sound(env, EndNamedIt(env, m, t).0)
  {
    var k := Reach(env.tables, m.names, t);
    if k.Some? {
      ReachedDown(env.tables, m, t);
      CloseDownSound(env, m, k.value);
      CloseSound(env, CloseDown(m, k.value));
    }
  }

  lemma {:induction false} TextSound(env: Setting, m: Mach)
    requires Sound(env, m) && m.cur < |env.data|
    ensures Sound(env, TextIt(env, m))
    decreases |env.data| - m.cur
  {
    var taken := m.(cur := env.Past(m.cur, 1));
    ParagraphSound(env, taken);
    var run := if !m.stopped && env.IsText(m.cur) then ParagraphIt(env, taken) else taken;
    if !run.stopped && !EndsText(env.Byte(run.cur)) { TextSound(env, run); }
  }

  lemma ReferenceSound(env: Setting, m: Mach)
    requires Sound(env, m) && m.cur < |env.data|
    ensures Sound(env, ReferenceIt(env, m))
  {
    ParagraphSound(env, m.(cur := env.Past(m.cur, if env.Byte(m.cur + 1) == '#' then 2 else 1)));
  }

  lemma PlainTurnSound(env: Setting, l: Loop)
    requires Sound(env, l.m) && l.m.cur <= |env.data|
    ensures var t := PlainTurn(env, l); Sound(env, if t.Done? then t.m else t.loop.m)
  {
    FinishElementSound(env, l.m);
    CloseDownSound(env, l.m, Bottom);
    if l.m.cur < |env.data| {
      ElementSound(env, l.m);
      ReferenceSound(env, l.m);
      TextSound(env, l.m);
    }
  }

  /** Every turn of the content loop keeps the stack sound. */
  lemma TurnSound(env: Setting, l: Loop)
    requires Sound(env, l.m) && l.m.cur <= |env.data|
    ensures var t := OneTurn(env, l); Sound(env, if t.Done? then t.m else t.loop.m)
  {
    PlainTurnSound(env, l);
    if env.Byte(l.m.cur) == '<' {
      AutoCloseSound(env, l.m, env.tables.Named(env.NameAt(l.m.cur + 1, false)));
      if env.Byte(l.m.cur + 1) == '/' { EndTagSound(env, l.m); }
    }
  }

  /** So does the whole loop; unless the tree got too deep it ends at a zero byte with everything closed. */
  lemma {:induction false} RunSound(env: Setting, l: Loop)
    requires Sound(env, l.m) && l.m.cur <= |env.data|
    ensures var m := Run(env, l); Sound(env, m) && m.cur <= |env.data| && (m.stopped || (env.Byte(m.cur) == '\0' && m.names.Bottom?))
    decreases |env.data| - l.m.cur, Size(l.m.names), Mismatch(l)
  {
    if !l.m.stopped {
      TurnSound(env, l);
      var t := OneTurn(env, l);
      if t.Next? {
        TurnFalls(env, l);
        RunSound(env, t.loop);
      }
    }
  }
}
