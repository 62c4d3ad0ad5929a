/**
 * Which elements the content loop of the HTML parser is given by its input,
 * whatever that is: the start events that are not implied are those of the
 * start tags it stands at, in order, and it stands somewhere for every byte.
 */
module HtmlGiven {
  import opened Options
  import opened HtmlTags

  /** The elements that the input names. */
  function Given(log: Log): seq<Tag>
  {
    if log.Nothing? then [] else Given(log.before) + if log.last.Start? then [log.last.tag] else []
  }

  predicate AtStartTag(env: Setting, k: nat) { env.Byte(k) == '<' && IsLetter(env.Byte(k + 1)) }

  /** The start tag the loop stands at, unless that is script or the tag is misplaced. */
  function GivenAt(env: Setting, l: Loop): seq<Tag>
  {
    if !AtStartTag(env, l.m.cur) || Raw(l) then []
    else
      var t := env.TagAt(l.m.cur + 1);
      if Misplaced(PrepareIt(env, l.m, t).names, t) then [] else [t]
  }

  /** Where the loop stands when it takes in bytes. */
  function Stops(env: Setting, l: Loop): seq<Loop>
    requires l.m.cur <= |env.data|
    decreases |env.data| - l.m.cur, Size(l.m.names), Mismatch(l)
  {
    if l.m.stopped || OneTurn(env, l).Done? then []
    else
      TurnFalls(env, l);
      var next := OneTurn(env, l).loop;
      From(l, next, Stops(env, next))
  }

  function AllGiven(env: Setting, stops: seq<Loop>): seq<Tag>
  {
    if stops == [] then [] else GivenAt(env, stops[0]) + AllGiven(env, stops[1..])
  }

  /** The stops are turns of the loop, each takes in bytes, and the next one begins where it ends. */
  predicate Gapless(env: Setting, stops: seq<Loop>, from: nat, to: nat)
  {
    if stops == [] then from == to
    else
      && stops[0].m.cur == from <= |env.data| && OneTurn(env, stops[0]).Next?
      && from < OneTurn(env, stops[0]).loop.m.cur && Gapless(env, stops[1..], OneTurn(env, stops[0]).loop.m.cur, to)
  }

  // ---- What adds no start event -----------------------------------------------------------

  lemma {:induction false} AutoCloseGives(env: Setting, m: Mach, t: Tag)
    ensures Given(AutoCloseIt(env, m, t).log) == Given(m.log)
    decreases m.names
  {
    if m.names.On? && env.tables.Closes(t, m.names.top) { AutoCloseGives(env, CloseIt(m), t); }
  }

  lemma {:induction false} CloseDownGives(m: Mach, left: Stack)
    ensures Given(CloseDown(m, left).log) == Given(m.log)
    decreases m.names
  {
    if m.names != left && m.names.On? { CloseDownGives(CloseIt(m), left); }
  }

  lemma ImplyGives(env: Setting, m: Mach, t: Tag)
    ensures Given(ImplyIt(env, m, t).log) == Given(m.log)
  {
    if env.ImpliedOn() && t != Html {
      var inner := if m.names.Bottom? then OpenIt(env, m, Imply(Html)) else m;
      assert Given(inner.log) == Given(m.log);
      ImplyInnerGives(env, inner, t);
    }
  }

  lemma ImplyInnerGives(env: Setting, m: Mach, t: Tag)
    ensures Given(ImplyInnerIt(env, m, t).log) == Given(m.log)
  {
  }

  lemma PrepareGives(env: Setting, m: Mach, t: Tag)
    ensures Given(PrepareIt(env, m, t).log) == Given(m.log)
  {
    AutoCloseGives(env, m, t);
    ImplyGives(env, AutoCloseIt(env, m, t), t);
  }

  lemma ParagraphGives(env: Setting, m: Mach)
    ensures Given(ParagraphIt(env, m).log) == Given(m.log)
  {
    PrepareGives(env, m, P);
  }

  lemma {:induction false} TextGives(env: Setting, m: Mach)
    requires m.cur < |env.data|
    ensures Given(TextIt(env, m).log) == Given(m.log)
    decreases |env.data| - m.cur
  {
    var taken := m.(cur := env.Past(m.cur, 1));
    ParagraphGives(env, taken);
    var run := if !m.stopped && env.IsText(m.cur) then ParagraphIt(env, taken) else taken;
    if !run.stopped && !EndsText(env.Byte(run.cur)) { TextGives(env, run); }
  }

  lemma ReferenceGives(env: Setting, m: Mach)
    requires m.cur < |env.data|
    ensures Given(ReferenceIt(env, m).log) == Given(m.log)
  {
    ParagraphGives(env, m.(cur := env.Past(m.cur, if env.Byte(m.cur + 1) == '#' then 2 else 1)));
  }

  lemma EndTagGives(env: Setting, m: Mach)
    requires m.cur + 2 <= |env.data|
    ensures Given(EndTagIt(env, m).0.log) == Given(m.log)
  {
    var at := m.cur + 2;
    if StartsName(env.Byte(at)) {
      var n := NamedEnd(env, m);
      EndNamedGives(env, n, env.TagAt(at));
    }
  }

  lemma EndNamedGives(env: Setting, m: Mach, t: Tag)
    ensures Given(EndNamedIt(env, m, t).0.log) == Given(m.log)
  {
    var k := Reach(env.tables, m.names, t);
    if k.Some? {
      ReachedDown(env.tables, m, t);
      CloseDownGives(m, k.value);
    }
  }

  lemma FinishTagGives(env: Setting, m: Mach)
    requires m.cur <= |env.data| && m.names.On?
    ensures Given(FinishTagIt(env, m).log) == Given(m.log)
  {
    CloseDownGives(DropIt(m), Bottom);
  }

  // ---- What a start tag adds -----------------------------------------------------------------

  /** Where the parser stands makes no difference to what a tag closes and implies. */
  lemma {:induction false} AutoCloseMoves(env: Setting, m: Mach, t: Tag, k: nat)
    ensures AutoCloseIt(env, m.(cur := k), t) == AutoCloseIt(env, m, t).(cur := k)
    decreases m.names
  {
    if m.names.On? && env.tables.Closes(t, m.names.top) { AutoCloseMoves(env, CloseIt(m), t, k); }
  }

  lemma ImplyMoves(env: Setting, m: Mach, t: Tag, k: nat)
    ensures ImplyIt(env, m.(cur := k), t) == ImplyIt(env, m, t).(cur := k)
  {
  }

  lemma PrepareMoves(env: Setting, m: Mach, t: Tag, k: nat)
    ensures PrepareIt(env, m.(cur := k), t).names == PrepareIt(env, m, t).names
  {
    AutoCloseMoves(env, m, t, k);
    ImplyMoves(env, AutoCloseIt(env, m, t), t, k);
  }

  lemma StartGives(env: Setting, m: Mach, t: Tag)
    requires m.cur <= |env.data|
    ensures Given(StartIt(env, m, t).log)
         == Given(m.log) + if Misplaced(PrepareIt(env, m, t).names, t) then [] else [t]
  {
    PrepareGives(env, m, t);
  }

  lemma NamedElementGives(env: Setting, m: Mach, t: Tag)
    requires m.cur <= |env.data|
    ensures Given(NamedElementIt(env, m, t).log)
         == Given(m.log) + if Misplaced(PrepareIt(env, m, t).names, t) then [] else [t]
  {
    StartGives(env, m, t);
    var s := StartIt(env, m, t);
    if s.names.On? { FinishTagGives(env, s); }
  }

  lemma GivenAtTag(env: Setting, l: Loop, t: Tag)
    requires AtStartTag(env, l.m.cur) && !Raw(l) && t == env.TagAt(l.m.cur + 1)
    ensures GivenAt(env, l) == if Misplaced(PrepareIt(env, l.m, t).names, t) then [] else [t]
  {
  }

  lemma ElementGives(env: Setting, l: Loop)
    requires l.m.cur < |env.data| && AtStartTag(env, l.m.cur) && !Raw(l)
    ensures Given(ElementIt(env, l.m).log) == Given(l.m.log) + GivenAt(env, l)
  {
    var at := l.m.cur + 1;
    var t, k := env.TagAt(at), at + |env.NameAt(at, true)|;
    NamedElement(env, l.m);
    GivenAtTag(env, l, t);
    PrepareMoves(env, l.m, t, k);
    NamedElementGives(env, l.m.(cur := k), t);
  }

  // ---- Turns and runs ----------------------------------------------------------------------------

  function Outcome(t: Turn): Mach { if t.Done? then t.m else t.loop.m }

  lemma PlainTurnGives(env: Setting, l: Loop)
    requires l.m.cur <= |env.data|
    ensures var r := Outcome(PlainTurn(env, l));
      Given(r.log) == Given(l.m.log) + if r.cur > l.m.cur then GivenAt(env, l) else []
  {
    var c := env.Byte(l.m.cur);
    if Mismatch(l) || c == '\0' {
      CloseDownGives(l.m, Bottom);
    } else if AtStartTag(env, l.m.cur) && !Raw(l) {
      ElementGives(env, l);
    } else if c == '&' {
      ReferenceGives(env, l.m);
    } else if c != '<' {
      TextGives(env, l.m);
    }
  }

  lemma EndTurnGives(env: Setting, l: Loop)
    requires l.m.cur <= |env.data| && env.Byte(l.m.cur) == '<' && env.Byte(l.m.cur + 1) == '/'
    ensures Given(Outcome(OneTurn(env, l)).log) == Given(l.m.log) && GivenAt(env, l) == []
  {
    EndTagGives(env, l.m);
  }

  /** A turn that takes in a start tag opens its element, and no other turn opens one. */
  lemma TurnGives(env: Setting, l: Loop)
    requires l.m.cur <= |env.data|
    ensures var r := Outcome(OneTurn(env, l));
      Given(r.log) == Given(l.m.log) + if r.cur > l.m.cur then GivenAt(env, l) else []
  {
    if env.Byte(l.m.cur) == '<' && env.Byte(l.m.cur + 1) == '/' {
      EndTurnGives(env, l);
    } else if env.Byte(l.m.cur) == '<' && ClosesFirst(env, l) {
      AutoCloseGives(env, l.m, env.tables.Named(env.NameAt(l.m.cur + 1, false)));
      assert Outcome(OneTurn(env, l)) == ClosingTurn(env, l);
    } else {
      PlainTurnGives(env, l);
      assert OneTurn(env, l) == PlainTurn(env, l);
    }
  }

  /** The stops of a run whose first turn leads from `l` to `next`. */
  function From(l: Loop, next: Loop, stops: seq<Loop>): seq<Loop> { if next.m.cur > l.m.cur then [l] + stops else stops }

  lemma MoreGiven(env: Setting, l: Loop, stops: seq<Loop>, before: seq<Tag>)
    ensures before + GivenAt(env, l) + AllGiven(env, stops) == before + AllGiven(env, [l] + stops)
  {
    OneMore(env, l, stops);
    Regroup(before, GivenAt(env, l), AllGiven(env, stops));
  }

  lemma GivenOn(env: Setting, l: Loop, next: Loop, stops: seq<Loop>, all: seq<Tag>)
    requires Given(next.m.log) == Given(l.m.log) + if next.m.cur > l.m.cur then GivenAt(env, l) else []
    requires all == Given(next.m.log) + AllGiven(env, stops)
    ensures all == Given(l.m.log) + AllGiven(env, From(l, next, stops))
  {
    if next.m.cur > l.m.cur { MoreGiven(env, l, stops, Given(l.m.log)); }
  }

  lemma Regroup(a: seq<Tag>, b: seq<Tag>, c: seq<Tag>)
    ensures a + b + c == a + (b + c)
  {
  }

  lemma OneMore(env: Setting, l: Loop, stops: seq<Loop>)
    ensures AllGiven(env, [l] + stops) == GivenAt(env, l) + AllGiven(env, stops)
  {
    assert ([l] + stops)[1..] == stops;
  }

  lemma MoreGapless(env: Setting, l: Loop, next: Loop, stops: seq<Loop>, to: nat)
    requires l.m.cur <= |env.data| && l.m.cur <= next.m.cur && OneTurn(env, l) == Next(next)
    requires Gapless(env, stops, next.m.cur, to)
    ensures Gapless(env, From(l, next, stops), l.m.cur, to)
  {
    assert ([l] + stops)[1..] == stops;
  }

  lemma Still(env: Setting, l: Loop)
    requires l.m.cur <= |env.data| && (l.m.stopped || OneTurn(env, l).Done?)
    ensures Given(Run(env, l).log) == Given(l.m.log) && Stops(env, l) == [] && Run(env, l).cur == l.m.cur
  {
    if !l.m.stopped { TurnGives(env, l); }
  }

  /**
   * On every input, the start events that are not implied are those of the start tags
   * at which the loop stood, in order, and where it stood there is no gap.
   */
  lemma {:induction false} RunGives(env: Setting, l: Loop)
    requires l.m.cur <= |env.data|
    ensures Given(Run(env, l).log) == Given(l.m.log) + AllGiven(env, Stops(env, l))
    ensures Gapless(env, Stops(env, l), l.m.cur, Run(env, l).cur)
    decreases |env.data| - l.m.cur, Size(l.m.names), Mismatch(l)
  {
    if l.m.stopped || OneTurn(env, l).Done? {
      Still(env, l);
    } else {
      var next := OneTurn(env, l).loop;
      TurnFalls(env, l);
      TurnGives(env, l);
      RunGives(env, next);
      GivenOn(env, l, next, Stops(env, next), Given(Run(env, next).log));
      MoreGapless(env, l, next, Stops(env, next), Run(env, next).cur);
    }
  }
}
