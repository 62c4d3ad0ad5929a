/**
 * What the content loop of the HTML parser makes of its input: the elements of
 * a document that is written out are opened and closed in order, with the tags
 * it leaves out, and on any input the elements it names are those of its tags.
 */
module HtmlContent {
  import Bits
  import opened Options
  import opened HtmlTags
  import HtmlParser

  // ---- Documents, written out ------------------------------------------------------

  /** Elements, empty elements in short form, script or style sheets, and text. */
  datatype Node = Elem(name: string, kids: seq<Node>) | Short(name: string) | Code(name: string, s: string) | Text(s: string)

  function TagOf(tables: Tables, name: string): Tag { tables.Named(Bits.LowerAll(name)) }

  function Tagged(name: string, inner: string): string { "<" + name + ">" + (inner + ("</" + name + ">")) }

  /** A node as it is written; an element without content has no end tag. */
  function Print(tables: Tables, n: Node): (s: string)
    decreases n, 0
  {
    match n
    case Text(s) => s
    case Short(name) => "<" + name + "/>"
    case Code(name, s) => Tagged(name, s)
    case Elem(name, kids) =>
      if tables.HasNoContent(TagOf(tables, name)) then "<" + name + ">" else Tagged(name, PrintAll(tables, kids))
  }

  function PrintAll(tables: Tables, ns: seq<Node>): (s: string)
    decreases ns, 1
  {
    if ns == [] then "" else Print(tables, ns[0]) + PrintAll(tables, ns[1..])
  }

  /** The events of a node: its start, those of what is in it, its end. */
  function Events(tables: Tables, n: Node): (es: seq<Event>)
    decreases n, 0
  {
    match n
    case Text(_) => []
    case Short(name) => [Start(TagOf(tables, name))] + [] + [End(TagOf(tables, name))]
    case Code(name, _) => [Start(TagOf(tables, name))] + [] + [End(TagOf(tables, name))]
    case Elem(name, kids) => [Start(TagOf(tables, name))] + EventsAll(tables, kids) + [End(TagOf(tables, name))]
  }

  function EventsAll(tables: Tables, ns: seq<Node>): (es: seq<Event>)
    decreases ns, 1
  {
    if ns == [] then [] else Events(tables, ns[0]) + EventsAll(tables, ns[1..])
  }

  predicate IsName(name: string) { 1 <= |name| <= 100 && forall i :: 0 <= i < |name| ==> IsLetter(name[i]) }

  predicate IsText(s: string) { s != "" && forall i :: 0 <= i < |s| ==> s[i] != '<' && s[i] != '&' && s[i] != '\0' }

  /** What may stand in a script: tags too, but no end tag and none that closes it. */
  predicate IsCode(tables: Tables, t: Tag, s: string)
  {
    forall i :: 0 <= i < |s| ==> s[i] != '\0' && (s[i] == '<' && i + 1 < |s| ==> NoEnd(tables, t, s, i + 1))
  }

  predicate NoEnd(tables: Tables, t: Tag, s: string, i: nat)
    requires i < |s|
  {
    s[i] != '/' && (TagStarts(s[i]) ==> !tables.Closes(tables.Named(NameFrom(s, i, false, 100)), t))
  }

  /** Tags that are never misplaced. */
  predicate PlainTag(t: Tag) { t != Html && t != Head && t != Body }

  predicate CodeTag(t: Tag) { t == Script || t == Style }

  /** An element where text asks for no paragraph. */
  predicate TakesText(parent: Option<Tag>) { parent.Some? && parent.value != Html && parent.value != Head }

  /** Text in an element that takes it, or a node whose tag does not close the element around it. */
  predicate Belongs(tables: Tables, parent: Option<Tag>, n: Node)
  {
    if n.Text? then TakesText(parent) else parent.None? || !tables.Closes(TagOf(tables, n.name), parent.value)
  }

  predicate AllBelong(tables: Tables, parent: Option<Tag>, ns: seq<Node>)
    decreases |ns|
  {
    ns != [] ==> Belongs(tables, parent, ns[0]) && AllBelong(tables, parent, ns[1..])
  }

  /** Plain names, nothing in elements without content, no two texts in a row,
      and no element that closes the one it is in. */
  predicate Good(tables: Tables, n: Node)
    decreases n, 0
  {
    match n
    case Text(s) => IsText(s)
    case Short(name) => IsName(name) && PlainTag(TagOf(tables, name))
    case Code(name, s) =>
      var t := TagOf(tables, name);
      IsName(name) && CodeTag(t) && !tables.HasNoContent(t) && IsCode(tables, t, s)
    case Elem(name, kids) =>
      var t := TagOf(tables, name);
      && IsName(name) && PlainTag(t) && !CodeTag(t) && (tables.HasNoContent(t) ==> kids == [])
      && GoodAll(tables, kids) && AllBelong(tables, Some(t), kids)
  }

  predicate GoodAll(tables: Tables, ns: seq<Node>)
    decreases ns, 1
  {
    ns != [] ==> Good(tables, ns[0]) && GoodAll(tables, ns[1..]) && (ns[0].Text? && |ns| > 1 ==> !ns[1].Text?)
  }

  function Height(n: Node): (h: nat)
    decreases n, 0
  {
    match n
    case Text(_) => 0
    case Short(_) => 1
    case Code(_, _) => 1
    case Elem(_, kids) => 1 + HeightAll(kids)
  }

  function HeightAll(ns: seq<Node>): (h: nat)
    decreases ns, 1
  {
    if ns == [] then 0
    else
      var (a, b) := (Height(ns[0]), HeightAll(ns[1..]));
      if a > b then a else b
  }

  /** Tags have no attributes, and text and scripts are taken byte by byte. */
  ghost predicate Simple(env: Setting) { forall k: nat :: env.extra(k) == 0 }

  lemma PastIs(env: Setting, at: nat, least: nat)
    requires Simple(env) && at + least <= |env.data|
    ensures env.Past(at, least) == at + least
  {
    assert env.extra(at) == 0;
  }

  function Extend(log: Log, es: seq<Event>): Log
    decreases |es|
  {
    if es == [] then log else Extend(Then(log, es[0]), es[1..])
  }

  lemma {:induction false} ExtendAppend(log: Log, a: seq<Event>, b: seq<Event>)
    ensures Extend(Extend(log, a), b) == Extend(log, a + b)
    decreases |a|
  {
    if a == [] {
      assert a + b == b;
    } else {
      ExtendAppend(Then(log, a[0]), a[1..], b);
      assert (a + b)[1..] == a[1..] + b;
    }
  }

  lemma {:induction false} ListedExtend(log: Log, es: seq<Event>)
    ensures Listed(Extend(log, es)) == Listed(log) + es
    decreases |es|
  {
    if es != [] {
      ListedExtend(Then(log, es[0]), es[1..]);
      assert Listed(log) + [es[0]] + es[1..] == Listed(log) + es;
    }
  }

  // ---- Reading names and text ----------------------------------------------------------

  /** The data has `s` at `at`. */
  predicate Spells(env: Setting, at: nat, s: string)
  {
    at + |s| <= |env.data| && forall i {:trigger s[i]} :: 0 <= i < |s| ==> env.data[at + i] == s[i]
  }

  lemma SpellsBoth(env: Setting, at: nat, a: string, b: string)
    requires Spells(env, at, a + b)
    ensures Spells(env, at, a) && Spells(env, at + |a|, b)
  {
    forall i | 0 <= i < |a| ensures env.data[at + i] == a[i] { assert (a + b)[i] == a[i]; }
    forall i | 0 <= i < |b| ensures env.data[at + |a| + i] == b[i] { assert (a + b)[|a| + i] == b[i]; }
  }

  lemma SpellsRest(env: Setting, at: nat, s: string)
    requires Spells(env, at, s) && s != ""
    ensures env.Byte(at) == s[0] && Spells(env, at + 1, s[1..])
  {
    SpellsBoth(env, at, [s[0]], s[1..]) by { assert [s[0]] + s[1..] == s; }
    assert env.data[at + 0] == s[0];
  }

  lemma {:induction false} NameReads(env: Setting, at: nat, name: string, dots: bool, room: nat)
    requires Spells(env, at, name) && |name| <= room && !IsNameChar(env.Byte(at + |name|), dots)
    requires forall i :: 0 <= i < |name| ==> IsLetter(name[i])
    ensures NameFrom(env.data, at, dots, room) == Bits.LowerAll(name)
    decreases |name|
  {
    if name != "" {
      SpellsRest(env, at, name);
      NameReads(env, at + 1, name[1..], dots, room - 1);
    }
  }

  lemma {:induction false} LowerLength(name: string)
    ensures |Bits.LowerAll(name)| == |name|
  {
    if name != "" { LowerLength(name[1..]); }
  }

  /** The name at `at` is read as it is written. */
  lemma NameIs(env: Setting, at: nat, name: string)
    requires Spells(env, at, name) && IsName(name) && (env.Byte(at + |name|) == '>' || env.Byte(at + |name|) == '/')
    ensures env.TagAt(at) == TagOf(env.tables, name) && |env.NameAt(at, true)| == |name|
    ensures env.tables.Named(env.NameAt(at, false)) == TagOf(env.tables, name)
    ensures StartsName(env.Byte(at)) && IsLetter(env.Byte(at))
  {
    NameReads(env, at, name, true, 100);
    NameReads(env, at, name, false, 100);
    LowerLength(name);
    SpellsRest(env, at, name);
  }

  lemma StartTagSpells(env: Setting, at: nat, name: string)
    requires Spells(env, at, "<" + name + ">")
    ensures at + |name| + 2 <= |env.data| && env.Byte(at) == '<' && env.Byte(at + 1 + |name|) == '>'
    ensures Spells(env, at + 1, name)
  {
    SpellsBoth(env, at, "<" + name, ">");
    SpellsBoth(env, at, "<", name);
    SpellsRest(env, at, "<");
    SpellsRest(env, at + 1 + |name|, ">");
  }

  lemma ShortSpells(env: Setting, at: nat, name: string)
    requires Spells(env, at, "<" + name + "/>")
    ensures at + |name| + 3 <= |env.data| && env.Byte(at) == '<' && Spells(env, at + 1, name)
    ensures env.Byte(at + 1 + |name|) == '/' && env.Byte(at + 2 + |name|) == '>'
  {
    SpellsBoth(env, at, "<" + name, "/>");
    SpellsBoth(env, at, "<", name);
    SpellsRest(env, at, "<");
    SpellsRest(env, at + 1 + |name|, "/>");
    SpellsRest(env, at + 2 + |name|, "/>"[1..]);
  }

  lemma EndTagSpells(env: Setting, at: nat, name: string)
    requires Spells(env, at, "</" + name + ">")
    ensures at + |name| + 3 <= |env.data| && env.Byte(at) == '<' && env.Byte(at + 1) == '/'
    ensures env.Byte(at + 2 + |name|) == '>' && Spells(env, at + 2, name)
  {
    SpellsBoth(env, at, "</" + name, ">");
    SpellsBoth(env, at, "</", name);
    SpellsRest(env, at, "</");
    SpellsRest(env, at + 1, "</"[1..]);
    SpellsRest(env, at + 2 + |name|, ">");
  }

  lemma {:induction false} TextReads(env: Setting, m: Mach, s: string)
    requires Simple(env) && !m.stopped && Spells(env, m.cur, s) && IsText(s) && EndsText(env.Byte(m.cur + |s|))
    requires TakesText(Top(m.names))
    ensures m.cur < |env.data| && TextIt(env, m) == m.(cur := m.cur + |s|)
    decreases |s|
  {
    SpellsRest(env, m.cur, s);
    PastIs(env, m.cur, 1);
    if |s| > 1 {
      SpellsRest(env, m.cur + 1, s[1..]);
      TextReads(env, m.(cur := m.cur + 1), s[1..]);
    }
  }

  lemma {:induction false} NameSpells(env: Setting, at: nat, s: string, i: nat, dots: bool, room: nat)
    requires i <= |s| && Spells(env, at, s) && !IsNameChar(env.Byte(at + |s|), dots)
    ensures NameFrom(env.data, at + i, dots, room) == NameFrom(s, i, dots, room)
    decreases |s| - i
  {
    if room > 0 && i < |s| { NameSpells(env, at, s, i + 1, dots, room - 1); }
  }

  /** Script from `at` on, `n` bytes, then an end tag. */
  predicate CodeStands(env: Setting, t: Tag, at: nat, n: nat)
  {
    && at + n + 1 < |env.data| && env.Byte(at + n) == '<' && env.Byte(at + n + 1) == '/'
    && forall i :: at <= i < at + n ==> env.Byte(i) != '\0' && (env.Byte(i) == '<' ==> NoEndAt(env, t, i + 1))
  }

  predicate NoEndAt(env: Setting, t: Tag, i: nat)
    requires i <= |env.data|
  {
    && env.Byte(i) != '/'
    && (TagStarts(env.Byte(i)) ==> !env.tables.Closes(env.tables.Named(env.NameAt(i, false)), t))
  }

  lemma CodeSpells(env: Setting, t: Tag, at: nat, s: string)
    requires Spells(env, at, s) && IsCode(env.tables, t, s)
    requires env.Byte(at + |s|) == '<' && env.Byte(at + |s| + 1) == '/'
    ensures CodeStands(env, t, at, |s|)
  {
    forall i | at <= i < at + |s|
      ensures env.Byte(i) != '\0' && (env.Byte(i) == '<' ==> NoEndAt(env, t, i + 1))
    {
      assert env.data[at + (i - at)] == s[i - at];
      if env.Byte(i) == '<' && i - at + 1 < |s| {
        assert NoEnd(env.tables, t, s, i - at + 1);
        assert env.data[at + (i - at + 1)] == s[i - at + 1];
        NameSpells(env, at, s, i - at + 1, false, 100);
      }
    }
  }

  // ---- Turns of the loop -----------------------------------------------------------------

  lemma RunStep(env: Setting, l: Loop, next: Loop)
    requires l.m.cur <= |env.data| && !l.m.stopped && OneTurn(env, l) == Next(next)
    ensures next.m.cur <= |env.data| && Run(env, l) == Run(env, next)
  {
    TurnFalls(env, l);
  }

  /** The loop has noted the innermost element. */
  predicate Steady(l: Loop) { l == Noted(l.m) && !l.m.stopped }

  /** And it is no script or style sheet. */
  predicate Calm(l: Loop) { Steady(l) && !Raw(l) }

  /** Nothing is implied here: implied tags are off, or the head or body is open. */
  predicate Silent(env: Setting, m: Mach)
  {
    env.ImpliedOn() ==> Size(m.names) >= 2 && (m.html >= 10 || Holds(m.names, Head))
  }

  /** A start tag that implies and closes nothing may stand here, and the tree does not get too deep. */
  predicate MayOpen(env: Setting, m: Mach, t: Tag)
  {
    && Silent(env, m) && PlainTag(t) && !m.stopped && Size(m.names) <= env.maxDepth
    && (m.names.On? ==> !env.tables.Closes(t, m.names.top))
  }

  predicate NodeMayStand(env: Setting, m: Mach, n: Node)
  {
    && Silent(env, m) && Good(env.tables, n) && Belongs(env.tables, Top(m.names), n)
    && Size(m.names) + Height(n) <= env.maxDepth + 1
  }

  /** The nodes may stand here, and the tree does not get too deep. */
  predicate MayStand(env: Setting, m: Mach, ns: seq<Node>)
  {
    && Silent(env, m) && GoodAll(env.tables, ns) && AllBelong(env.tables, Top(m.names), ns)
    && Size(m.names) + HeightAll(ns) <= env.maxDepth + 1
  }

  /** The loop stands at a node, or at several. */
  predicate AtNode(env: Setting, l: Loop, n: Node)
  {
    && Spells(env, l.m.cur, Print(env.tables, n)) && Calm(l) && NodeMayStand(env, l.m, n)
    && (n.Text? ==> EndsText(env.Byte(l.m.cur + |Print(env.tables, n)|)))
  }

  predicate AtNodes(env: Setting, l: Loop, ns: seq<Node>)
  {
    && Spells(env, l.m.cur, PrintAll(env.tables, ns)) && Calm(l) && MayStand(env, l.m, ns)
    && EndsText(env.Byte(l.m.cur + |PrintAll(env.tables, ns)|))
  }

  /** An element has been opened and closed. */
  function Passed(m: Mach, t: Tag, k: nat): Mach { m.(cur := k, log := Then(Then(m.log, Start(t)), End(t))) }

  /** The element has been opened, and closed again if it has no content. */
  function Opened(env: Setting, m: Mach, t: Tag, k: nat): Mach
  {
    if env.tables.HasNoContent(t) then Passed(m, t, k)
    else m.(cur := k, names := On(t, m.names), log := Then(m.log, Start(t)))
  }

  /** The tag closes nothing here. */
  predicate Closeless(env: Setting, m: Mach, t: Tag) { m.names.On? ==> !env.tables.Closes(t, m.names.top) }

  lemma SilentImplies(env: Setting, m: Mach, t: Tag)
    requires MayOpen(env, m, t)
    ensures ImplyIt(env, m, t) == m && Closeless(env, m, t)
  {
  }

  lemma ImplyMoves(env: Setting, m: Mach, t: Tag, k: nat)
    ensures ImplyIt(env, m.(cur := k), t) == ImplyIt(env, m, t).(cur := k)
  {
  }

  /** A start tag that closes nothing, in the parser `q` with what it implies. */
  lemma StartIsPlain(env: Setting, m: Mach, q: Mach, t: Tag)
    requires Simple(env) && m.cur <= |env.data| && Closeless(env, m, t) && ImplyIt(env, m, t) == q && MayOpen(env, q, t)
    ensures StartIt(env, m, t) == q.(names := On(t, q.names), log := Then(q.log, Start(t)))
  {
    PastIs(env, m.cur, 0);
    assert AutoCloseIt(env, m, t) == m;
  }

  /** A start tag without attributes, from behind its name on. */
  lemma NamedReads(env: Setting, m: Mach, q: Mach, t: Tag)
    requires Simple(env) && m.cur < |env.data| && env.Byte(m.cur) == '>'
    requires Closeless(env, m, t) && ImplyIt(env, m, t) == q && MayOpen(env, q, t)
    ensures NamedElementIt(env, m, t) == Opened(env, q, t, m.cur + 1)
  {
    StartIsPlain(env, m, q, t);
  }

  lemma NamedReadsAt(env: Setting, m: Mach, q: Mach, t: Tag, k: nat)
    requires Simple(env) && k < |env.data| && env.Byte(k) == '>'
    requires Closeless(env, m, t) && ImplyIt(env, m, t) == q && MayOpen(env, q, t)
    ensures NamedElementIt(env, m.(cur := k), t) == Opened(env, q, t, k + 1)
  {
    ImplyMoves(env, m, t, k);
    NamedReads(env, m.(cur := k), q.(cur := k), t);
  }

  lemma ElementReads(env: Setting, m: Mach, q: Mach, t: Tag, k: nat)
    requires Simple(env) && k < |env.data| && env.Byte(k) == '>'
    requires m.cur + 1 <= k == m.cur + 1 + |env.NameAt(m.cur + 1, true)| && env.TagAt(m.cur + 1) == t
    requires StartsName(env.Byte(m.cur + 1)) && Closeless(env, m, t) && ImplyIt(env, m, t) == q && MayOpen(env, q, t)
    ensures ElementIt(env, m) == Opened(env, q, t, k + 1)
  {
    NamedElement(env, m);
    NamedReadsAt(env, m, q, t, k);
  }

  /** One turn at a start tag. */
  lemma StartTurn(env: Setting, l: Loop, q: Mach, name: string)
    requires Simple(env) && Spells(env, l.m.cur, "<" + name + ">") && IsName(name) && Calm(l)
    requires var t := TagOf(env.tables, name); Closeless(env, l.m, t) && ImplyIt(env, l.m, t) == q && MayOpen(env, q, t)
    ensures OneTurn(env, l) == Next(Noted(Opened(env, q, TagOf(env.tables, name), l.m.cur + |name| + 2)))
  {
    StartTagSpells(env, l.m.cur, name);
    NameIs(env, l.m.cur + 1, name);
    ElementReads(env, l.m, q, TagOf(env.tables, name), l.m.cur + 1 + |name|);
    assert !ClosesFirst(env, l);
  }

  lemma ShortReads(env: Setting, m: Mach, t: Tag)
    requires Simple(env) && m.cur < |env.data| && env.Byte(m.cur) == '/' && env.Byte(m.cur + 1) == '>' && MayOpen(env, m, t)
    ensures NamedElementIt(env, m, t) == Passed(m, t, m.cur + 2)
  {
    SilentImplies(env, m, t);
    StartIsPlain(env, m, m, t);
  }

  lemma ShortElement(env: Setting, m: Mach, t: Tag, k: nat)
    requires Simple(env) && k < |env.data| && env.Byte(k) == '/' && env.Byte(k + 1) == '>'
    requires m.cur + 1 <= k == m.cur + 1 + |env.NameAt(m.cur + 1, true)| && env.TagAt(m.cur + 1) == t
    requires StartsName(env.Byte(m.cur + 1)) && MayOpen(env, m, t)
    ensures ElementIt(env, m) == Passed(m, t, k + 2)
  {
    NamedElement(env, m);
    ShortReads(env, m.(cur := k), t);
  }

  /** A discarded tag in short form: `<html/>` inside an element closes that element. */
  lemma DiscardedCloses(env: Setting, m: Mach, name: string)
    requires Simple(env) && Spells(env, m.cur, "<" + name + "/>") && IsName(name) && TagOf(env.tables, name) == Html
    requires m.names.On? && !env.tables.Closes(Html, m.names.top)
    ensures m.cur < |env.data| && ElementIt(env, m) == CloseIt(m).(cur := m.cur + |name| + 3, depth := m.depth + 1)
  {
    ShortSpells(env, m.cur, name);
    NameIs(env, m.cur + 1, name);
    NamedElement(env, m);
    DiscardedShort(env, m.(cur := m.cur + 1 + |name|));
  }

  lemma DiscardedShort(env: Setting, m: Mach)
    requires Simple(env) && m.cur < |env.data| && env.Byte(m.cur) == '/' && env.Byte(m.cur + 1) == '>'
    requires m.names.On? && !env.tables.Closes(Html, m.names.top)
    ensures NamedElementIt(env, m, Html) == CloseIt(m).(cur := m.cur + 2, depth := m.depth + 1)
  {
    PastIs(env, m.cur, 0);
    assert PrepareIt(env, m, Html) == m;
  }

  /** One turn at an element in short form. */
  lemma ShortTurn(env: Setting, l: Loop, name: string)
    requires Simple(env) && Spells(env, l.m.cur, "<" + name + "/>") && IsName(name) && Calm(l)
    requires MayOpen(env, l.m, TagOf(env.tables, name))
    ensures OneTurn(env, l) == Next(Noted(Passed(l.m, TagOf(env.tables, name), l.m.cur + |name| + 3)))
  {
    ShortSpells(env, l.m.cur, name);
    NameIs(env, l.m.cur + 1, name);
    ShortElement(env, l.m, TagOf(env.tables, name), l.m.cur + 1 + |name|);
    assert !ClosesFirst(env, l);
  }

  /** The parser behind the end tag of the innermost element. */
  function Closed(m: Mach, k: nat): Mach
    requires m.names.On?
  {
    m.(cur := k, names := m.names.below, log := Then(m.log, End(m.names.top)))
  }

  lemma EndTagReads(env: Setting, m: Mach, name: string)
    requires Simple(env) && IsName(name) && m.names.On? && m.names.top == TagOf(env.tables, name) && PlainTag(m.names.top)
    requires m.cur + |name| + 3 <= |env.data| && Spells(env, m.cur + 2, name) && env.Byte(m.cur + 2 + |name|) == '>'
    ensures EndTagIt(env, m) == (Closed(m, m.cur + |name| + 3), true)
  {
    NameIs(env, m.cur + 2, name);
    PastIs(env, m.cur + 2 + |name|, 0);
    assert Reach(env.tables, m.names, m.names.top) == Some(m.names);
  }

  /** One turn at the end tag of the innermost element. */
  lemma EndTurn(env: Setting, l: Loop, name: string)
    requires Simple(env) && Spells(env, l.m.cur, "</" + name + ">") && IsName(name) && Steady(l)
    requires l.m.names.On? && l.m.names.top == TagOf(env.tables, name) && PlainTag(l.m.names.top)
    ensures OneTurn(env, l) == Next(Noted(Closed(l.m, l.m.cur + |name| + 3)))
  {
    EndTagSpells(env, l.m.cur, name);
    EndTagReads(env, l.m, name);
  }

  /** The loop further on, with more events. */
  function Moved(l: Loop, k: nat, es: seq<Event>): Loop
  {
    l.(m := l.m.(cur := l.m.cur + k, log := Extend(l.m.log, es)))
  }

  lemma MovedTwice(l: Loop, j: nat, a: seq<Event>, k: nat, b: seq<Event>)
    ensures Moved(Moved(l, j, a), k, b) == Moved(l, j + k, a + b)
  {
    ExtendAppend(l.m.log, a, b);
  }

  // ---- Reading a document --------------------------------------------------------------------

  /** A node is read: the loop gets behind it, and its events are logged. */
  lemma {:induction false} ReadNode(env: Setting, l: Loop, n: Node)
    requires Simple(env) && AtNode(env, l, n)
    ensures Run(env, l) == Run(env, Moved(l, |Print(env.tables, n)|, Events(env.tables, n)))
    decreases n, 0
  {
    match n
    case Text(s) => ReadText(env, l, s);
    case Short(name) => ReadShort(env, l, name);
    case Code(name, s) => ReadCode(env, l, name, s);
    case Elem(name, kids) =>
      if env.tables.HasNoContent(TagOf(env.tables, name)) { ReadVoid(env, l, name, kids); } else { ReadElem(env, l, name, kids); }
  }

  lemma {:induction false} ReadElem(env: Setting, l: Loop, name: string, kids: seq<Node>)
    requires Simple(env) && AtNode(env, l, Elem(name, kids)) && !env.tables.HasNoContent(TagOf(env.tables, name))
    ensures Run(env, l) == Run(env, Moved(l, |Print(env.tables, Elem(name, kids))|, Events(env.tables, Elem(name, kids))))
    decreases kids, 2
  {
    var inner := Inside(env, l, name, kids);
    ReadStart(env, l, name);
    ReadNodes(env, inner, kids);
    ReadEnd(env, l, name, PrintAll(env.tables, kids), EventsAll(env.tables, kids));
  }

  lemma ReadText(env: Setting, l: Loop, s: string)
    requires Simple(env) && AtNode(env, l, Text(s))
    ensures Run(env, l) == Run(env, Moved(l, |Print(env.tables, Text(s))|, Events(env.tables, Text(s))))
  {
    TextReads(env, l.m, s);
    SpellsRest(env, l.m.cur, s);
    RunStep(env, l, Moved(l, |s|, []));
  }

  /** The parts of an element that has content. */
  lemma TaggedSpells(env: Setting, at: nat, name: string, inner: string)
    requires Spells(env, at, Tagged(name, inner))
    ensures var k := at + |name| + 2 + |inner|;
      && Spells(env, at, "<" + name + ">") && Spells(env, at + |name| + 2, inner) && Spells(env, k, "</" + name + ">")
      && k + 1 < |env.data| && env.Byte(k) == '<' && env.Byte(k + 1) == '/'
      && at + |Tagged(name, inner)| == k + |name| + 3
  {
    SpellsBoth(env, at, "<" + name + ">", inner + ("</" + name + ">"));
    SpellsBoth(env, at + |name| + 2, inner, "</" + name + ">");
    EndTagSpells(env, at + |name| + 2 + |inner|, name);
  }

  /** The start tag of an element. */
  lemma ReadStart(env: Setting, l: Loop, name: string)
    requires Simple(env) && Spells(env, l.m.cur, "<" + name + ">") && IsName(name) && Calm(l)
    requires MayOpen(env, l.m, TagOf(env.tables, name))
    ensures l.m.cur + |name| + 2 <= |env.data|
    ensures Run(env, l) == Run(env, Noted(Opened(env, l.m, TagOf(env.tables, name), l.m.cur + |name| + 2)))
  {
    SilentImplies(env, l.m, TagOf(env.tables, name));
    StartTurn(env, l, l.m, name);
    StartTagSpells(env, l.m.cur, name);
    RunStep(env, l, Noted(Opened(env, l.m, TagOf(env.tables, name), l.m.cur + |name| + 2)));
  }

  /** An element in short form. */
  lemma ReadShort(env: Setting, l: Loop, name: string)
    requires Simple(env) && AtNode(env, l, Short(name))
    ensures Run(env, l) == Run(env, Moved(l, |Print(env.tables, Short(name))|, Events(env.tables, Short(name))))
  {
    var k := ShortStands(env, l, name);
    ShortTurn(env, l, name);
    RunStep(env, l, Noted(Passed(l.m, TagOf(env.tables, name), k)));
  }

  lemma ShortStands(env: Setting, l: Loop, name: string) returns (k: nat)
    requires AtNode(env, l, Short(name))
    ensures k == l.m.cur + |name| + 3 && Spells(env, l.m.cur, "<" + name + "/>") && MayOpen(env, l.m, TagOf(env.tables, name))
    ensures Noted(Passed(l.m, TagOf(env.tables, name), k))
         == Moved(l, |Print(env.tables, Short(name))|, Events(env.tables, Short(name)))
  {
    k := l.m.cur + |name| + 3;
    PassedMoved(l, TagOf(env.tables, name), |name| + 3);
  }

  /** An element without content. */
  lemma ReadVoid(env: Setting, l: Loop, name: string, kids: seq<Node>)
    requires Simple(env) && AtNode(env, l, Elem(name, kids)) && env.tables.HasNoContent(TagOf(env.tables, name))
    ensures Run(env, l) == Run(env, Moved(l, |Print(env.tables, Elem(name, kids))|, Events(env.tables, Elem(name, kids))))
  {
    VoidStands(env, l, name, kids);
    ReadStart(env, l, name);
  }

  lemma VoidStands(env: Setting, l: Loop, name: string, kids: seq<Node>)
    requires AtNode(env, l, Elem(name, kids)) && env.tables.HasNoContent(TagOf(env.tables, name))
    ensures Spells(env, l.m.cur, "<" + name + ">") && MayOpen(env, l.m, TagOf(env.tables, name))
    ensures Noted(Opened(env, l.m, TagOf(env.tables, name), l.m.cur + |name| + 2))
         == Moved(l, |Print(env.tables, Elem(name, kids))|, Events(env.tables, Elem(name, kids)))
  {
    PassedMoved(l, TagOf(env.tables, name), |name| + 2);
  }

  lemma PassedMoved(l: Loop, t: Tag, k: nat)
    requires l == Noted(l.m)
    ensures Noted(Passed(l.m, t, l.m.cur + k)) == Moved(l, k, [Start(t)] + [] + [End(t)])
  {
    var es := [Start(t)] + [] + [End(t)];
    assert es == [Start(t), End(t)] && es[1..] == [End(t)] && es[1..][1..] == [];
    assert Extend(Then(Then(l.m.log, es[0]), es[1..][0]), []) == Extend(l.m.log, es);
  }

  /** The loop behind the start tag of an element with content stands at what is in it. */
  lemma Inside(env: Setting, l: Loop, name: string, kids: seq<Node>) returns (inner: Loop)
    requires AtNode(env, l, Elem(name, kids)) && !env.tables.HasNoContent(TagOf(env.tables, name))
    ensures Spells(env, l.m.cur, "<" + name + ">")
    ensures inner == Noted(Opened(env, l.m, TagOf(env.tables, name), l.m.cur + |name| + 2)) && AtNodes(env, inner, kids)
  {
    TaggedSpells(env, l.m.cur, name, PrintAll(env.tables, kids));
    inner := Noted(Opened(env, l.m, TagOf(env.tables, name), l.m.cur + |name| + 2));
  }

  /** From behind what is in an element to behind its end tag. */
  lemma ReadEnd(env: Setting, l: Loop, name: string, inner: string, es: seq<Event>)
    requires Simple(env) && IsName(name) && Calm(l) && PlainTag(TagOf(env.tables, name))
    requires !env.tables.HasNoContent(TagOf(env.tables, name))
    requires Spells(env, l.m.cur, Tagged(name, inner))
    ensures var t := TagOf(env.tables, name);
      var l2 := Moved(Noted(Opened(env, l.m, t, l.m.cur + |name| + 2)), |inner|, es);
      && l2.m.cur <= |env.data|
      && Run(env, l2) == Run(env, Moved(l, |Tagged(name, inner)|, [Start(t)] + es + [End(t)]))
  {
    var t := TagOf(env.tables, name);
    var l2 := Moved(Noted(Opened(env, l.m, t, l.m.cur + |name| + 2)), |inner|, es);
    TaggedSpells(env, l.m.cur, name, inner);
    EndTurn(env, l2, name);
    RunStep(env, l2, Noted(Closed(l2.m, l2.m.cur + |name| + 3)));
    Wrapped(l.m.log, t, es);
  }

  lemma Wrapped(log: Log, t: Tag, es: seq<Event>)
    ensures Then(Extend(Then(log, Start(t)), es), End(t)) == Extend(log, [Start(t)] + es + [End(t)])
  {
    ExtendAppend(log, [Start(t)], es);
    ExtendAppend(log, [Start(t)] + es, [End(t)]);
  }

  /** A script or style sheet: what is in it is no markup. */
  lemma ReadCode(env: Setting, l: Loop, name: string, s: string)
    requires Simple(env) && AtNode(env, l, Code(name, s))
    ensures Run(env, l) == Run(env, Moved(l, |Print(env.tables, Code(name, s))|, Events(env.tables, Code(name, s))))
  {
    var inner := InsideCode(env, l, name, s);
    ReadStart(env, l, name);
    CodeReads(env, inner, TagOf(env.tables, name), |s|);
    ReadEnd(env, l, name, s, []);
  }

  /** The loop stands in a script, `n` bytes before its end tag. */
  predicate AtCode(env: Setting, l: Loop, t: Tag, n: nat)
  {
    Steady(l) && CodeTag(t) && Top(l.m.names) == Some(t) && CodeStands(env, t, l.m.cur, n)
  }

  lemma InsideCode(env: Setting, l: Loop, name: string, s: string) returns (inner: Loop)
    requires AtNode(env, l, Code(name, s))
    ensures Spells(env, l.m.cur, "<" + name + ">") && MayOpen(env, l.m, TagOf(env.tables, name))
    ensures inner == Noted(Opened(env, l.m, TagOf(env.tables, name), l.m.cur + |name| + 2))
    ensures AtCode(env, inner, TagOf(env.tables, name), |s|)
  {
    TaggedSpells(env, l.m.cur, name, s);
    CodeSpells(env, TagOf(env.tables, name), l.m.cur + |name| + 2, s);
    inner := Noted(Opened(env, l.m, TagOf(env.tables, name), l.m.cur + |name| + 2));
  }

  lemma {:induction false} CodeReads(env: Setting, l: Loop, t: Tag, n: nat)
    requires Simple(env) && AtCode(env, l, t, n)
    ensures Run(env, l) == Run(env, Moved(l, n, []))
    decreases n
  {
    if n > 0 {
      CodeTurn(env, l, t, n);
      RunStep(env, l, Moved(l, 1, []));
      CodeReads(env, Moved(l, 1, []), t, n - 1);
    }
    OneByOne(l, n);
  }

  lemma OneByOne(l: Loop, n: nat)
    ensures Moved(l, 0, []) == l && (n > 0 ==> Moved(Moved(l, 1, []), n - 1, []) == Moved(l, n, []))
  {
  }

  lemma CodeTurn(env: Setting, l: Loop, t: Tag, n: nat)
    requires Simple(env) && AtCode(env, l, t, n) && n > 0
    ensures OneTurn(env, l) == Next(Moved(l, 1, [])) && AtCode(env, Moved(l, 1, []), t, n - 1)
  {
    PastIs(env, l.m.cur, 1);
    assert env.Byte(l.m.cur) == '<' ==> NoEndAt(env, t, l.m.cur + 1);
  }

  lemma {:induction false} ReadNodes(env: Setting, l: Loop, ns: seq<Node>)
    requires Simple(env) && AtNodes(env, l, ns)
    ensures Run(env, l) == Run(env, Moved(l, |PrintAll(env.tables, ns)|, EventsAll(env.tables, ns)))
    decreases ns, 1
  {
    if ns != [] {
      var first, more := Print(env.tables, ns[0]), PrintAll(env.tables, ns[1..]);
      var next := SplitNodes(env, l, ns);
      ReadNode(env, l, ns[0]);
      ReadNodes(env, next, ns[1..]);
      MovedTwice(l, |first|, Events(env.tables, ns[0]), |more|, EventsAll(env.tables, ns[1..]));
    }
  }

  /** The first of several nodes, and the others behind it. */
  lemma SplitNodes(env: Setting, l: Loop, ns: seq<Node>) returns (next: Loop)
    requires ns != [] && AtNodes(env, l, ns)
    ensures next == Moved(l, |Print(env.tables, ns[0])|, Events(env.tables, ns[0]))
    ensures AtNode(env, l, ns[0]) && AtNodes(env, next, ns[1..])
    ensures |PrintAll(env.tables, ns)| == |Print(env.tables, ns[0])| + |PrintAll(env.tables, ns[1..])|
    ensures EventsAll(env.tables, ns) == Events(env.tables, ns[0]) + EventsAll(env.tables, ns[1..])
  {
    SplitSpells(env, l.m.cur, ns);
    AfterText(env, l.m.cur + |Print(env.tables, ns[0])|, ns);
    next := Moved(l, |Print(env.tables, ns[0])|, Events(env.tables, ns[0]));
  }

  lemma SplitSpells(env: Setting, at: nat, ns: seq<Node>)
    requires ns != [] && Spells(env, at, PrintAll(env.tables, ns))
    ensures var k := at + |Print(env.tables, ns[0])|;
      && Spells(env, at, Print(env.tables, ns[0])) && Spells(env, k, PrintAll(env.tables, ns[1..]))
      && k + |PrintAll(env.tables, ns[1..])| == at + |PrintAll(env.tables, ns)|
  {
    SpellsBoth(env, at, Print(env.tables, ns[0]), PrintAll(env.tables, ns[1..]));
  }

  /** No text follows a text. */
  lemma AfterText(env: Setting, at: nat, ns: seq<Node>)
    requires ns != [] && GoodAll(env.tables, ns) && Spells(env, at, PrintAll(env.tables, ns[1..]))
    requires EndsText(env.Byte(at + |PrintAll(env.tables, ns[1..])|))
    ensures ns[0].Text? ==> EndsText(env.Byte(at))
  {
    if ns[0].Text? && |ns| > 1 {
      assert ns[1..][0] == ns[1];
      SpellsBoth(env, at, Print(env.tables, ns[1]), PrintAll(env.tables, ns[1..][1..]));
      PrintStarts(env, at, ns[1]);
    }
  }

  lemma PrintStarts(env: Setting, at: nat, n: Node)
    requires !n.Text? && Spells(env, at, Print(env.tables, n))
    ensures env.Byte(at) == '<' && (!n.Short? ==> Spells(env, at, "<" + n.name + ">"))
  {
    if n.Short? {
      ShortSpells(env, at, n.name);
      return;
    }
    if n.Elem? {
      if !env.tables.HasNoContent(TagOf(env.tables, n.name)) { TaggedSpells(env, at, n.name, PrintAll(env.tables, n.kids)); }
    } else {
      TaggedSpells(env, at, n.name, n.s);
    }
    StartTagSpells(env, at, n.name);
  }

  // ---- Whole documents -------------------------------------------------------------------------

  const INIT := Mach(0, Bottom, 1, 0, false, Nothing)

  /** The last turn closes what is still open. */
  lemma RunEnds(env: Setting, l: Loop)
    requires l.m.cur == |env.data| && Steady(l)
    ensures Run(env, l) == EndAllIt(l.m)
  {
  }

  /**
   * With implied tags off, a document of elements, scripts and text is read as it
   * is written: every element is opened and closed in its place, and no other.
   */
  lemma WrittenIsRead(env: Setting, ns: seq<Node>)
    requires Simple(env) && !env.ImpliedOn() && env.data == PrintAll(env.tables, ns) && GoodAll(env.tables, ns)
    requires HeightAll(ns) <= env.maxDepth + 1 && AllBelong(env.tables, None, ns)
    ensures var m := Run(env, Noted(INIT));
      Listed(m.log) == EventsAll(env.tables, ns) && m.names == Bottom && m.cur == |env.data| && !m.stopped
  {
    var l := Noted(INIT);
    ReadNodes(env, l, ns);
    RunEnds(env, Moved(l, |env.data|, EventsAll(env.tables, ns)));
    ListedExtend(Nothing, EventsAll(env.tables, ns));
  }

  // ---- Documents that leave out html, head and body ------------------------------------------------

  /** A start tag is read as if what it implies had been opened before. */
  lemma ReadImplied(env: Setting, l: Loop, q: Mach, name: string)
    requires Simple(env) && Spells(env, l.m.cur, "<" + name + ">") && IsName(name) && Calm(l) && Calm(Noted(q))
    requires var t := TagOf(env.tables, name);
      q.cur == l.m.cur && Closeless(env, l.m, t) && ImplyIt(env, l.m, t) == q && MayOpen(env, q, t)
    ensures l.m.cur <= |env.data| && Run(env, l) == Run(env, Noted(q))
  {
    var t := TagOf(env.tables, name);
    var next := Noted(Opened(env, q, t, l.m.cur + |name| + 2));
    StartTagSpells(env, l.m.cur, name);
    SilentImplies(env, q, t);
    StartTurn(env, l, q, name);
    StartTurn(env, Noted(q), q, name);
    RunStep(env, l, next);
    RunStep(env, Noted(q), next);
  }

  const ROOT := On(Html, Bottom)

  /** Where the head or the body has just been implied. */
  predicate InSection(m: Mach, t: Tag)
  {
    !m.stopped && m.names == On(t, ROOT) && if t == Head then m.html == 3 else t == Body && m.html == 10
  }

  /** Nodes that are to stand in the head or body, the first an element that goes there. */
  predicate MayFill(env: Setting, t: Tag, ns: seq<Node>)
  {
    && GoodAll(env.tables, ns) && AllBelong(env.tables, Some(t), ns)
    && (ns != [] ==> (ns[0].Elem? || ns[0].Code?) && Leads(TagOf(env.tables, ns[0].name), t) && HeightAll(ns) < env.maxDepth)
  }

  predicate Leads(u: Tag, t: Tag) { if t == Head then InHead(u) else !InHead(u) && u != Noframes && u != Frame && u != Frameset }

  /** In the head or body that is open its nodes are read. */
  lemma SectionIsRead(env: Setting, l: Loop, t: Tag, ns: seq<Node>)
    requires Simple(env) && Calm(l) && InSection(l.m, t) && MayFill(env, t, ns) && ns != []
    requires Spells(env, l.m.cur, PrintAll(env.tables, ns)) && EndsText(env.Byte(l.m.cur + |PrintAll(env.tables, ns)|))
    ensures Run(env, l) == Run(env, Moved(l, |PrintAll(env.tables, ns)|, EventsAll(env.tables, ns)))
  {
    assert Size(ROOT) == 1 && Size(l.m.names) == 2;
    ReadNodes(env, l, ns);
  }

  /** The parser with the head or body, and the root element around it, implied. */
  function Entered(m: Mach, t: Tag): Mach
  {
    m.(names := On(t, ROOT), html := Level(m.html, t),
       log := Then(if m.names.Bottom? then Then(m.log, Imply(Html)) else m.log, Imply(t)))
  }

  /** No head or body has been opened. */
  predicate Before(m: Mach, t: Tag) { (m.names == Bottom && m.html == 1) || (t == Body && m.names == ROOT && m.html == 3) }

  lemma EnterImplies(env: Setting, m: Mach, t: Tag, u: Tag)
    requires env.ImpliedOn() && Before(m, t) && (t == Head || t == Body) && PlainTag(u) && Leads(u, t) && env.maxDepth > 1
    ensures ImplyIt(env, m, u) == Entered(m, t)
  {
    assert Size(ROOT) == 1;
  }

  /** The element that leads the head or body. */
  lemma FirstFits(env: Setting, at: nat, t: Tag, ns: seq<Node>)
    requires ns != [] && MayFill(env, t, ns) && Spells(env, at, PrintAll(env.tables, ns))
    ensures !ns[0].Text? && !ns[0].Short? && Spells(env, at, "<" + ns[0].name + ">") && IsName(ns[0].name) && env.maxDepth > 1
    ensures var u := TagOf(env.tables, ns[0].name); PlainTag(u) && Leads(u, t) && !env.tables.Closes(u, t)
    ensures env.Byte(at) == '<'
  {
    assert Good(env.tables, ns[0]) && Belongs(env.tables, Some(t), ns[0]);
    assert HeightAll(ns) >= Height(ns[0]);
    SpellsBoth(env, at, Print(env.tables, ns[0]), PrintAll(env.tables, ns[1..]));
    PrintStarts(env, at, ns[0]);
  }

  /** The loop stands where the head or body begins, outside of any element or in the root element. */
  predicate AtSection(env: Setting, l: Loop, t: Tag, ns: seq<Node>)
  {
    && Calm(l) && Before(l.m, t) && (t == Head || t == Body) && ns != [] && MayFill(env, t, ns)
    && Spells(env, l.m.cur, PrintAll(env.tables, ns)) && EndsText(env.Byte(l.m.cur + |PrintAll(env.tables, ns)|))
    && (l.m.names == ROOT ==> !env.tables.Closes(TagOf(env.tables, ns[0].name), Html))
  }

  lemma EnterSection(env: Setting, l: Loop, t: Tag, ns: seq<Node>)
    requires Simple(env) && env.ImpliedOn() && AtSection(env, l, t, ns)
    ensures Run(env, l) == Run(env, Noted(Entered(l.m, t)))
  {
    var name, q := ns[0].name, Entered(l.m, t);
    FirstFits(env, l.m.cur, t, ns);
    EnterImplies(env, l.m, t, TagOf(env.tables, name));
    assert Size(ROOT) == 1 && Size(q.names) == 2;
    ReadImplied(env, l, q, name);
  }

  /** A start tag of the body in the head that is open closes it. */
  lemma HeadCloses(env: Setting, l: Loop, name: string)
    requires Simple(env) && Spells(env, l.m.cur, "<" + name + ">") && IsName(name) && Calm(l) && InSection(l.m, Head)
    requires env.tables.Closes(TagOf(env.tables, name), Head) && !env.tables.Closes(TagOf(env.tables, name), Html)
    ensures l.m.cur <= |env.data| && Run(env, l) == Run(env, Noted(CloseIt(l.m)))
  {
    StartTagSpells(env, l.m.cur, name);
    NameIs(env, l.m.cur + 1, name);
    var l1 := l.(m := CloseIt(l.m));
    assert AutoCloseIt(env, l1.m, TagOf(env.tables, name)) == l1.m;
    RunStep(env, l, l1);
    NotedAnew(env, l1);
  }

  lemma NotedAnew(env: Setting, l: Loop)
    requires l.m.cur < |env.data| && Mismatch(l) && !l.m.stopped && env.Byte(l.m.cur) != '\0'
    requires env.Byte(l.m.cur) == '<' ==> env.Byte(l.m.cur + 1) != '/' && !ClosesFirst(env, l)
    ensures Run(env, l) == Run(env, Noted(l.m))
  {
    RunStep(env, l, Noted(l.m));
  }

  /** What the head and the body add to a log. */
  function SectionEvents(tables: Tables, t: Tag, ns: seq<Node>): seq<Event>
  {
    if ns == [] then [] else [Imply(t)] + EventsAll(tables, ns) + [End(t)]
  }

  function DocumentEvents(tables: Tables, hs: seq<Node>, bs: seq<Node>): seq<Event>
  {
    if hs == [] && bs == [] then []
    else [Imply(Html)] + SectionEvents(tables, Head, hs) + SectionEvents(tables, Body, bs) + [End(Html)]
  }

  lemma EventsIn(log: Log, t: Tag, es: seq<Event>)
    ensures Listed(Then(Extend(Then(log, Imply(t)), es), End(t))) == Listed(log) + ([Imply(t)] + es + [End(t)])
  {
    ListedExtend(Then(log, Imply(t)), es);
    assert Listed(log) + [Imply(t)] + es + [End(t)] == Listed(log) + ([Imply(t)] + es + [End(t)]);
  }

  /** The end of the data in the head or the body. */
  lemma SectionEnds(env: Setting, l: Loop, t: Tag, es: seq<Event>)
    requires Calm(l) && Before(l.m, t) && (t == Head || t == Body)
    requires l.m.cur <= |env.data|
    ensures var l' := Moved(Noted(Entered(l.m, t)), |env.data| - l.m.cur, es);
      var root := if l.m.names.Bottom? then [Imply(Html)] else [];
      Listed(Run(env, l').log) == Listed(l.m.log) + root + ([Imply(t)] + es + [End(t)]) + [End(Html)]
  {
    var l' := Moved(Noted(Entered(l.m, t)), |env.data| - l.m.cur, es);
    RunEnds(env, l');
    assert EndAllIt(l'.m).log == Then(Then(l'.m.log, End(t)), End(Html)) by { TwoClose(l'.m, t); }
    EventsIn(if l.m.names.Bottom? then Then(l.m.log, Imply(Html)) else l.m.log, t, es);
  }

  lemma TwoClose(m: Mach, t: Tag)
    requires m.names == On(t, ROOT)
    ensures EndAllIt(m).log == Then(Then(m.log, End(t)), End(Html))
  {
    var m1 := CloseIt(m);
    assert CloseDown(CloseIt(m1), Bottom) == CloseIt(m1);
    assert CloseDown(m1, Bottom) == CloseIt(m1);
  }

  /** The parser behind the nodes of the head or body. */
  function Filled(env: Setting, m: Mach, t: Tag, ns: seq<Node>): Loop
  {
    Moved(Noted(Entered(m, t)), |PrintAll(env.tables, ns)|, EventsAll(env.tables, ns))
  }

  lemma FillSection(env: Setting, l: Loop, t: Tag, ns: seq<Node>)
    requires Simple(env) && env.ImpliedOn() && AtSection(env, l, t, ns)
    ensures Run(env, l) == Run(env, Filled(env, l.m, t, ns))
  {
    EnterSection(env, l, t, ns);
    var q := Entered(l.m, t);
    assert InSection(q, t) && q.cur == l.m.cur;
    SectionIsRead(env, Noted(q), t, ns);
  }

  /** And nothing follows it. */
  predicate AtLast(env: Setting, l: Loop, t: Tag, ns: seq<Node>)
  {
    AtSection(env, l, t, ns) && l.m.cur + |PrintAll(env.tables, ns)| == |env.data|
  }

  lemma LastIsRead(env: Setting, l: Loop, t: Tag, ns: seq<Node>)
    requires Simple(env) && env.ImpliedOn() && AtLast(env, l, t, ns)
    ensures var root := if l.m.names.Bottom? then [Imply(Html)] else [];
      Listed(Run(env, l).log) == Listed(l.m.log) + root + SectionEvents(env.tables, t, ns) + [End(Html)]
  {
    FillSection(env, l, t, ns);
    SectionEnds(env, l, t, EventsAll(env.tables, ns));
  }

  /** The tag that leads the body ends the head, but not the root element. */
  predicate EndsHead(tables: Tables, bs: seq<Node>)
  {
    && bs != [] && !bs[0].Text?
    && tables.Closes(TagOf(tables, bs[0].name), Head) && !tables.Closes(TagOf(tables, bs[0].name), Html)
  }

  lemma HeadSpells(env: Setting, hs: seq<Node>, bs: seq<Node>)
    requires env.data == PrintAll(env.tables, hs) + PrintAll(env.tables, bs)
    requires MayFill(env, Body, bs) && EndsHead(env.tables, bs)
    ensures var k := |PrintAll(env.tables, hs)|;
      && Spells(env, 0, PrintAll(env.tables, hs)) && env.Byte(k) == '<' && k < |env.data|
      && Spells(env, k, PrintAll(env.tables, bs)) && k + |PrintAll(env.tables, bs)| == |env.data|
      && Spells(env, k, "<" + bs[0].name + ">") && IsName(bs[0].name)
  {
    SpellsBoth(env, 0, PrintAll(env.tables, hs), PrintAll(env.tables, bs));
    FirstFits(env, |PrintAll(env.tables, hs)|, Body, bs);
  }

  lemma LeftBehind(env: Setting, hs: seq<Node>)
    ensures CloseIt(Filled(env, INIT, Head, hs).m)
         == Mach(|PrintAll(env.tables, hs)|, ROOT, 3, 0, false,
                 Then(Extend(Then(Then(Nothing, Imply(Html)), Imply(Head)), EventsAll(env.tables, hs)), End(Head)))
    ensures hs != [] ==>
      Listed(CloseIt(Filled(env, INIT, Head, hs).m).log) == [Imply(Html)] + SectionEvents(env.tables, Head, hs)
  {
    EventsIn(Then(Nothing, Imply(Html)), Head, EventsAll(env.tables, hs));
  }

  /** Behind the head stands the body. */
  lemma HeadIsLeft(env: Setting, hs: seq<Node>, bs: seq<Node>) returns (l: Loop)
    requires env.data == PrintAll(env.tables, hs) + PrintAll(env.tables, bs)
    requires MayFill(env, Body, bs) && EndsHead(env.tables, bs)
    ensures l == Noted(CloseIt(Filled(env, INIT, Head, hs).m)) && l.m.names == ROOT && AtLast(env, l, Body, bs)
    ensures hs != [] ==> Listed(l.m.log) == [Imply(Html)] + SectionEvents(env.tables, Head, hs)
  {
    HeadSpells(env, hs, bs);
    LeftBehind(env, hs);
    l := Noted(CloseIt(Filled(env, INIT, Head, hs).m));
  }

  /** The head is read, and left for the body. */
  lemma HeadRuns(env: Setting, hs: seq<Node>, bs: seq<Node>)
    requires Simple(env) && env.ImpliedOn() && env.data == PrintAll(env.tables, hs) + PrintAll(env.tables, bs)
    requires hs != [] && MayFill(env, Head, hs) && MayFill(env, Body, bs) && EndsHead(env.tables, bs)
    ensures |PrintAll(env.tables, hs)| <= |env.data|
    ensures Run(env, Noted(INIT)) == Run(env, Noted(CloseIt(Filled(env, INIT, Head, hs).m)))
  {
    HeadSpells(env, hs, bs);
    FillSection(env, Noted(INIT), Head, hs);
    HeadCloses(env, Filled(env, INIT, Head, hs), bs[0].name);
  }

  lemma HeadAndBodyAreRead(env: Setting, hs: seq<Node>, bs: seq<Node>)
    requires Simple(env) && env.ImpliedOn() && env.data == PrintAll(env.tables, hs) + PrintAll(env.tables, bs)
    requires hs != [] && MayFill(env, Head, hs) && MayFill(env, Body, bs) && EndsHead(env.tables, bs)
    ensures Listed(Run(env, Noted(INIT)).log) == DocumentEvents(env.tables, hs, bs)
  {
    HeadRuns(env, hs, bs);
    var l := HeadIsLeft(env, hs, bs);
    LastIsRead(env, l, Body, bs);
    DocumentIs(env.tables, hs, bs);
  }

  lemma WholeIsRead(env: Setting, t: Tag, ns: seq<Node>)
    requires Simple(env) && env.ImpliedOn() && env.data == PrintAll(env.tables, ns) && ns != []
    requires MayFill(env, t, ns) && (t == Head || t == Body)
    ensures Listed(Run(env, Noted(INIT)).log) == [] + [Imply(Html)] + SectionEvents(env.tables, t, ns) + [End(Html)]
  {
    WholeStands(env, t, ns);
    LastIsRead(env, Noted(INIT), t, ns);
  }

  lemma WholeStands(env: Setting, t: Tag, ns: seq<Node>)
    requires env.data == PrintAll(env.tables, ns) && ns != [] && MayFill(env, t, ns) && (t == Head || t == Body)
    ensures AtLast(env, Noted(INIT), t, ns)
  {
  }

  lemma DocumentIs(tables: Tables, hs: seq<Node>, bs: seq<Node>)
    ensures hs != [] && bs == [] ==>
      DocumentEvents(tables, hs, bs) == [] + [Imply(Html)] + SectionEvents(tables, Head, hs) + [End(Html)]
    ensures hs == [] && bs != [] ==>
      DocumentEvents(tables, hs, bs) == [] + [Imply(Html)] + SectionEvents(tables, Body, bs) + [End(Html)]
    ensures hs != [] && bs != [] ==>
      DocumentEvents(tables, hs, bs)
      == [Imply(Html)] + SectionEvents(tables, Head, hs) + [] + SectionEvents(tables, Body, bs) + [End(Html)]
  {
    var es := [Imply(Html)] + SectionEvents(tables, Head, hs);
    assert es + [] == es;
  }

  /**
   * With implied tags on, a document of elements that go into the head and elements
   * that go into the body is read with html, head and body around them: each is opened
   * once, in its place, and closed.
   */
  lemma ImpliedAreRead(env: Setting, hs: seq<Node>, bs: seq<Node>)
    requires Simple(env) && env.ImpliedOn() && env.data == PrintAll(env.tables, hs) + PrintAll(env.tables, bs)
    requires MayFill(env, Head, hs) && MayFill(env, Body, bs)
    requires hs != [] && bs != [] ==> EndsHead(env.tables, bs)
    ensures Listed(Run(env, Noted(INIT)).log) == DocumentEvents(env.tables, hs, bs)
  {
    DocumentIs(env.tables, hs, bs);
    if hs != [] && bs != [] {
      HeadAndBodyAreRead(env, hs, bs);
    } else if hs != [] {
      assert env.data == PrintAll(env.tables, hs);
      WholeIsRead(env, Head, hs);
    } else if bs != [] {
      assert env.data == PrintAll(env.tables, bs);
      WholeIsRead(env, Body, bs);
    }
  }

  /** The parser in the paragraph that text outside of any element gets. */
  const LOOSE := Mach(1, On(P, On(Body, ROOT)), 10, 0, false, Then(Then(Then(Nothing, Imply(Html)), Imply(Body)), Imply(P)))

  lemma LooseParagraph(env: Setting)
    requires env.ImpliedOn() && env.maxDepth > 1
    ensures ParagraphIt(env, INIT.(cur := 1)) == LOOSE
  {
    assert Size(ROOT) == 1 && Size(On(Body, ROOT)) == 2;
    assert PrepareIt(env, INIT.(cur := 1), P) == ImplyIt(env, INIT.(cur := 1), P);
  }

  lemma LooseReads(env: Setting, s: string)
    requires Simple(env) && env.ImpliedOn() && env.data == s && IsText(s) && env.IsText(0) && env.maxDepth > 1
    ensures TextIt(env, INIT) == LOOSE.(cur := |s|)
  {
    PastIs(env, 0, 1);
    LooseParagraph(env);
    if |s| > 1 { TextReads(env, LOOSE, s[1..]); }
  }

  /** Text outside of any element gets a paragraph, in a body. */
  lemma LooseText(env: Setting, s: string)
    requires Simple(env) && env.ImpliedOn() && env.data == s && IsText(s) && env.IsText(0) && env.maxDepth > 1
    ensures Listed(Run(env, Noted(INIT)).log)
         == [Imply(Html), Imply(Body), Imply(P)] + [End(P), End(Body), End(Html)]
  {
    LooseReads(env, s);
    var l := Noted(INIT).(m := LOOSE.(cur := |s|));
    RunStep(env, Noted(INIT), l);
    assert Run(env, l) == EndAllIt(l.m);
    LooseEnds(l.m);
  }

  lemma LooseEnds(m: Mach)
    requires m.names == LOOSE.names && m.log == LOOSE.log
    ensures Listed(EndAllIt(m).log) == [Imply(Html), Imply(Body), Imply(P)] + [End(P), End(Body), End(Html)]
  {
    TwoClose(CloseIt(m), Body);
  }

  /** Parses a document written without html, head and body. */
  method ParsePage(env: Setting, ghost hs: seq<Node>, ghost bs: seq<Node>) returns (log: Log)
    requires Simple(env) && env.ImpliedOn() && env.data == PrintAll(env.tables, hs) + PrintAll(env.tables, bs)
    requires MayFill(env, Head, hs) && MayFill(env, Body, bs)
    requires hs != [] && bs != [] ==> EndsHead(env.tables, bs)
    ensures Listed(log) == DocumentEvents(env.tables, hs, bs)
  {
    var p := new HtmlParser.Parser(env);
    ghost var m := p.Now();
    p.ParseContent();
    ImpliedAreRead(env, hs, bs);
    assert p.Now() == Run(env, Noted(INIT));
    log := p.log;
  }
}
