/**
  What the printed text of an HTML tree says: a reader that knows only tags and text gets the tree
  back from it.
 */
module HtmlTreeReader {
  import Bits
  import opened Options
  import opened HtmlTree

  // ----- the reader -----

  /** What a reader sees: elements by name, and text. */
  datatype Item = Elem(name: string, kids: seq<Item>) | Txt(text: string)

  /** An element whose end tag is still to come, and the items before it. */
  datatype Unclosed = Unclosed(name: string, before: seq<Item>)

  /** Text behind text is one text. */
  function AddText(done: seq<Item>, text: string): (r: seq<Item>) {
    if text == "" then done
    else if done != [] && done[|done| - 1].Txt? then done[..|done| - 1] + [Txt(done[|done| - 1].text + text)]
    else done + [Txt(text)]
  }

  function NameIn(s: string): (name: string)
    ensures |name| <= |s|
  {
    if s == "" || s[0] == '>' then "" else [s[0]] + NameIn(s[1..])
  }

  /**
    Reads `<name>`, `</name>` and text. Names in `alone` have no end tag; any other end tag must name the
    innermost open element.
   */
  function Read(s: string, alone: string -> bool, done: seq<Item>, open: seq<Unclosed>): (r: Option<seq<Item>>)
    decreases |s|
  {
    if s == "" then (if open == [] then Some(done) else None)
    else if s[0] != '<' then Read(s[1..], alone, AddText(done, [s[0]]), open)
    else if |s| > 1 && s[1] == '/' then
      var name := NameIn(s[2..]);
      if open == [] || open[0].name != name || |name| + 3 > |s| then None
      else Read(s[|name| + 3..], alone, open[0].before + [Elem(name, done)], open[1..])
    else
      var name := NameIn(s[1..]);
      if |name| + 2 > |s| then None
      else if alone(name) then Read(s[|name| + 2..], alone, done + [Elem(name, [])], open)
      else Read(s[|name| + 2..], alone, [], [Unclosed(name, done)] + open)
  }

  predicate IsName(name: string) { name != "" && forall i :: 0 <= i < |name| ==> name[i] !in {'<', '>', '/'} }

  lemma {:induction false} NameInIs(name: string, rest: string)
    requires forall i :: 0 <= i < |name| ==> name[i] != '>'
    ensures NameIn(name + ">" + rest) == name
  {
    if name == "" {
      assert (name + ">" + rest)[0] == '>';
    } else {
      NameInIs(name[1..], rest);
      assert (name + ">" + rest)[1..] == name[1..] + ">" + rest;
    }
  }

  lemma ReadStart(name: string, rest: string, alone: string -> bool, done: seq<Item>, open: seq<Unclosed>)
    requires IsName(name)
    ensures Read("<" + name + ">" + rest, alone, done, open) ==
            if alone(name) then Read(rest, alone, done + [Elem(name, [])], open)
            else Read(rest, alone, [], [Unclosed(name, done)] + open)
  {
    var s := "<" + name + ">" + rest;
    NameInIs(name, rest);
    assert s[1] == name[0] && s[1..] == name + ">" + rest && s[|name| + 2..] == rest;
  }

  lemma ReadEnd(name: string, rest: string, alone: string -> bool, done: seq<Item>, open: seq<Unclosed>)
    requires IsName(name) && open != [] && open[0].name == name
    ensures Read("</" + name + ">" + rest, alone, done, open) ==
            Read(rest, alone, open[0].before + [Elem(name, done)], open[1..])
  {
    var s := "</" + name + ">" + rest;
    NameInIs(name, rest);
    assert s[1] == '/' && s[2..] == name + ">" + rest && s[|name| + 3..] == rest;
  }

  lemma {:induction false} ReadText(text: string, rest: string, alone: string -> bool, done: seq<Item>, open: seq<Unclosed>)
    requires '<' !in text
    ensures Read(text + rest, alone, done, open) == Read(rest, alone, AddText(done, text), open)
  {
    if text == "" {
      assert text + rest == rest;
    } else {
      var more := AddText(done, [text[0]]);
      assert (text + rest)[0] == text[0] && (text + rest)[1..] == text[1..] + rest;
      ReadText(text[1..], rest, alone, more, open);
      assert [text[0]] + text[1..] == text;
      AddTextTwice(done, [text[0]], text[1..]);
    }
  }

  lemma AddTextTwice(done: seq<Item>, a: string, b: string)
    ensures AddText(AddText(done, a), b) == AddText(done, a + b)
  {
    if a == "" {
      assert a + b == b;
    } else if b == "" {
      assert a + b == a;
    } else if done != [] && done[|done| - 1].Txt? {
      assert (done[|done| - 1].text + a) + b == done[|done| - 1].text + (a + b);
    }
  }

  // ----- what there is to read -----

  /** An element that prints no end tag: one the table calls empty, or a childless one whose end tag is saved. */
  predicate Unended(mem: Memory, id: nat)
    requires id < |mem|
  {
    var n := mem[id];
    n.info.Some? && (n.info.value.empty ||
      (n.children == -1 && n.info.value.saveEndTag && n.info.value.name != "html" && n.info.value.name != "body"))
  }

  /** Elements and text, without attributes; no newlines are put in; whether an end tag is printed shows in the name. */
  ghost predicate Readable(mem: Memory, t: Tree, parent: int, format: bool, alone: string -> bool)
    requires Linked(mem, t)
    decreases t, 0
  {
    var n := mem[t.id];
    match n.kind
    case Text => '<' !in TextOf(mem, t.id, parent)
    case Element =>
      && IsName(n.qname) && Bare(mem, t.id, format)
      && (alone(n.qname) <==> Unended(mem, t.id))
      && (!(n.info.Some? && n.info.value.empty) ==> ReadableAll(mem, t.kids, t.id, format, alone))
    case _ => false
  }

  ghost predicate ReadableAll(mem: Memory, ts: seq<Tree>, parent: int, format: bool, alone: string -> bool)
    requires LinkedAll(mem, ts)
    decreases ts, 1
  {
    ts != [] ==> Readable(mem, ts[0], parent, format, alone) && ReadableAll(mem, ts[1..], parent, format, alone)
  }

  /** The characters of a text node: encoded, but for scripts, style sheets, and nodes marked not to be. */
  function TextOf(mem: Memory, id: nat, parent: int): string
    requires id < |mem|
  {
    var n := mem[id];
    if n.content.None? then ""
    else if n.noEncode || (0 <= parent < |mem| && mem[parent].name.Some? && HoldsCode(mem[parent].name.value)) then n.content.value
    else n.escaped
  }

  /** The name is `script` or `style`, in any mixture of cases. */
  predicate HoldsCode(name: string) { SameLetters(name, "script") || SameLetters(name, "style") }

  predicate SameLetters(name: string, lower: string) {
    |name| == |lower| && forall i :: 0 <= i < |name| ==> name[i] == lower[i] || name[i] as int + 32 == lower[i] as int
  }

  lemma {:induction false} LowerAllIs(s: string)
    ensures |Bits.LowerAll(s)| == |s| && forall i :: 0 <= i < |s| ==> Bits.LowerAll(s)[i] == Bits.Lower(s[i])
  {
    if s != "" { LowerAllIs(s[1..]); }
  }

  lemma SameLettersIs(name: string, lower: string)
    requires forall i :: 0 <= i < |lower| ==> 'a' <= lower[i] <= 'z'
    ensures SameLetters(name, lower) <==> Bits.LowerAll(name) == lower
  {
    LowerAllIs(name);
  }

  /** A text is encoded unless its parent is a script or style sheet, however that is spelled, or the node is marked. */
  lemma TextChoice(mem: Memory, id: nat, parent: int)
    requires id < |mem| && mem[id].kind == Text
    ensures Leaf(mem, id, parent) == TextOf(mem, id, parent)
  {
    if 0 <= parent < |mem| && mem[parent].name.Some? {
      SameLettersIs(mem[parent].name.value, "script");
      SameLettersIs(mem[parent].name.value, "style");
    }
  }

  /** The items of a tree: names, nesting, order, and each text. */
  function ItemsOf(mem: Memory, t: Tree, parent: int, done: seq<Item>): (r: seq<Item>)
    requires Linked(mem, t)
    decreases t, 0
  {
    var n := mem[t.id];
    if n.kind == Text then AddText(done, TextOf(mem, t.id, parent))
    else done + [Elem(n.qname, if n.info.Some? && n.info.value.empty then [] else AllItems(mem, t.kids, t.id, []))]
  }

  function AllItems(mem: Memory, ts: seq<Tree>, parent: int, done: seq<Item>): (r: seq<Item>)
    requires LinkedAll(mem, ts)
    decreases ts, 1
  {
    if ts == [] then done else AllItems(mem, ts[1..], parent, ItemsOf(mem, ts[0], parent, done))
  }

  // ----- reading back -----

  /** An element without attributes around which no newlines are put. */
  predicate Bare(mem: Memory, id: nat, format: bool)
    requires id < |mem|
  {
    mem[id].kind == Element && mem[id].head == "" && (format && mem[id].info.Some? ==> mem[id].info.value.isInline)
  }

  lemma StartTagIs(mem: Memory, id: nat, format: bool)
    requires id < |mem| && Bare(mem, id, format)
    ensures StartTag(mem, id, format) == "<" + mem[id].qname + ">" +
            if !Unended(mem, id) && mem[id].children == -1 then "</" + mem[id].qname + ">" else ""
  {
    var start := "<" + mem[id].qname;
    assert start + "" == start && start + (">" + "") == start + ">" + "";
    assert start + ("></" + mem[id].qname + ">") == start + ">" + ("</" + mem[id].qname + ">");
  }

  lemma EndTagIs(mem: Memory, id: nat, format: bool)
    requires id < |mem| && Bare(mem, id, format)
    ensures EndTag(mem, id, format) == "</" + mem[id].qname + ">"
  {
  }

  /** How an element without newlines prints. */
  lemma PrintElement(mem: Memory, t: Tree, parent: int, format: bool)
    requires Linked(mem, t) && Bare(mem, t.id, format)
    ensures var name := mem[t.id].qname;
      Print(mem, t, parent, format) ==
        if Unended(mem, t.id) then "<" + name + ">"
        else "<" + name + ">" + PrintAll(mem, t.kids, t.id, format) + ("</" + name + ">")
  {
    StartTagIs(mem, t.id, format);
    EndTagIs(mem, t.id, format);
    var before := Before(mem, t.id, parent, format);
    assert before == StartTag(mem, t.id, format);
    if Unended(mem, t.id) || t.kids == [] {
      assert Print(mem, t, parent, format) == before + "" == before;
    } else {
      var inner := PrintAll(mem, t.kids, t.id, format);
      assert before == "<" + mem[t.id].qname + ">";
      assert Print(mem, t, parent, format) == before + (inner + EndTag(mem, t.id, format));
    }
  }

  lemma {:induction false} ReadNode(mem: Memory, t: Tree, parent: int, format: bool, alone: string -> bool,
                                    rest: string, done: seq<Item>, open: seq<Unclosed>)
    requires Linked(mem, t) && Readable(mem, t, parent, format, alone)
    ensures Read(Print(mem, t, parent, format) + rest, alone, done, open) ==
            Read(rest, alone, ItemsOf(mem, t, parent, done), open)
    decreases t, 0
  {
    var n := mem[t.id];
    if n.kind == Text {
      TextChoice(mem, t.id, parent);
      ReadText(TextOf(mem, t.id, parent), rest, alone, done, open);
      assert Print(mem, t, parent, format) == TextOf(mem, t.id, parent);
    } else {
      PrintElement(mem, t, parent, format);
      var inner := PrintAll(mem, t.kids, t.id, format);
      var tail := "</" + n.qname + ">" + rest;
      if Unended(mem, t.id) {
        ReadStart(n.qname, rest, alone, done, open);
      } else {
        Associate("<" + n.qname + ">", inner, "</" + n.qname + ">", rest);
        ReadStart(n.qname, inner + tail, alone, done, open);
        ReadNodes(mem, t.kids, t.id, format, alone, tail, [], [Unclosed(n.qname, done)] + open);
        ReadEnd(n.qname, rest, alone, AllItems(mem, t.kids, t.id, []), [Unclosed(n.qname, done)] + open);
        assert ([Unclosed(n.qname, done)] + open)[1..] == open;
      }
    }
  }

  lemma Associate(a: string, b: string, c: string, d: string)
    ensures a + b + c + d == a + (b + (c + d))
  {
  }

  lemma {:induction false} ReadNodes(mem: Memory, ts: seq<Tree>, parent: int, format: bool, alone: string -> bool,
                                     rest: string, done: seq<Item>, open: seq<Unclosed>)
    requires LinkedAll(mem, ts) && ReadableAll(mem, ts, parent, format, alone)
    ensures Read(PrintAll(mem, ts, parent, format) + rest, alone, done, open) ==
            Read(rest, alone, AllItems(mem, ts, parent, done), open)
    decreases ts, 1
  {
    if ts == [] {
      assert "" + rest == rest;
    } else {
      var more := PrintAll(mem, ts[1..], parent, format);
      assert Print(mem, ts[0], parent, format) + more + rest == Print(mem, ts[0], parent, format) + (more + rest);
      ReadNode(mem, ts[0], parent, format, alone, more + rest, done, open);
      ReadNodes(mem, ts[1..], parent, format, alone, rest, ItemsOf(mem, ts[0], parent, done), open);
    }
  }

  /** Printing says everything: the reader gets names, nesting, order and texts back. */
  lemma PrintReadsBack(mem: Memory, t: Tree, parent: int, format: bool, alone: string -> bool)
    requires Linked(mem, t) && Readable(mem, t, parent, format, alone)
    ensures Read(Print(mem, t, parent, format), alone, [], []) == Some(ItemsOf(mem, t, parent, []))
  {
    ReadNode(mem, t, parent, format, alone, "", [], []);
    assert Print(mem, t, parent, format) + "" == Print(mem, t, parent, format);
  }

  /** A whole document, which ends with a newline. */
  lemma DocumentReadsBack(mem: Memory, t: Tree, format: bool, alone: string -> bool)
    requires Linked(mem, t) && mem[t.id].kind == Document && mem[t.id].head == ""
    requires ReadableAll(mem, t.kids, t.id, format, alone)
    ensures Read(Print(mem, t, mem[t.id].parent, format), alone, [], []) ==
            Some(AddText(AllItems(mem, t.kids, t.id, []), "\n"))
  {
    ReadNodes(mem, t.kids, t.id, format, alone, "\n", [], []);
    ReadText("\n", "", alone, AllItems(mem, t.kids, t.id, []), []);
    assert "\n" + "" == "\n";
    assert Print(mem, t, mem[t.id].parent, format) == PrintAll(mem, t.kids, t.id, format) + "\n";
  }

  /** The pointer walk, and what its output says. */
  method DumpReadable(mem: Memory, root: nat, format: bool, ghost rt: Tree, ghost alone: string -> bool) returns (out: string)
    requires Pointers(mem) && Linked(mem, rt) && rt.id == root && Readable(mem, rt, mem[root].parent, format, alone)
    ensures Read(out, alone, [], []) == Some(ItemsOf(mem, rt, mem[root].parent, []))
  {
    out := Dump(mem, root, format, rt);
    PrintReadsBack(mem, rt, mem[root].parent, format, alone);
  }

  // ----- formatting -----

  function WithoutNewlines(s: string): (r: string) {
    if s == "" then "" else (if s[0] == '\n' then "" else [s[0]]) + WithoutNewlines(s[1..])
  }

  lemma {:induction false} WithoutAppend(a: string, b: string)
    ensures WithoutNewlines(a + b) == WithoutNewlines(a) + WithoutNewlines(b)
  {
    if a == "" {
      assert a + b == b;
    } else {
      assert (a + b)[1..] == a[1..] + b;
      WithoutAppend(a[1..], b);
    }
  }

  predicate NewlinesOnly(s: string) { s == "" || s == "\n" }

  lemma SameWithout(a: string, b: string, c: string, d: string)
    requires NewlinesOnly(b) && NewlinesOnly(c)
    ensures WithoutNewlines(a + b + d) == WithoutNewlines(a + c + d)
  {
    WithoutAppend(a, b);
    WithoutAppend(a, c);
    WithoutAppend(a + b, d);
    WithoutAppend(a + c, d);
  }

  lemma StartTagFormat(mem: Memory, id: nat)
    requires id < |mem|
    ensures WithoutNewlines(StartTag(mem, id, true)) == WithoutNewlines(StartTag(mem, id, false))
  {
    var start := "<" + mem[id].qname + mem[id].head;
    var b := if BreaksInside(mem, id, mem[id].children, true) then "\n" else "";
    SameWithout(start + ">", b, "", "");
    assert start + (">" + b) == start + ">" + b + "" && start + (">" + "") == start + ">" + "" + "";
  }

  lemma EndTagFormat(mem: Memory, id: nat)
    requires id < |mem|
    ensures WithoutNewlines(EndTag(mem, id, true)) == WithoutNewlines(EndTag(mem, id, false))
  {
    if mem[id].kind != Document {
      var b := if BreaksInside(mem, id, mem[id].last, true) then "\n" else "";
      var close, a := "</" + mem[id].qname + ">", After(mem, id, mem[id].parent, true);
      SameWithout("", b, "", close + a);
      SameWithout(close, a, "", "");
      assert EndTag(mem, id, true) == "" + b + (close + a) && EndTag(mem, id, false) == close;
      assert "" + "" + (close + a) == close + a + "" && close + "" + "" == close;
    }
  }

  lemma BeforeFormat(mem: Memory, id: nat, parent: int)
    requires id < |mem|
    ensures WithoutNewlines(Before(mem, id, parent, true)) == WithoutNewlines(Before(mem, id, parent, false))
  {
    if mem[id].kind == Element {
      var p := if mem[id].children != -1 then mem[id].parent else parent;
      var a := if Descends(mem, id, parent) then "" else After(mem, id, p, true);
      var on, off := StartTag(mem, id, true), StartTag(mem, id, false);
      StartTagFormat(mem, id);
      SameWithout(on, a, "", "");
      assert Before(mem, id, parent, true) == on + a == on + a + "" && on + "" + "" == on;
      assert Before(mem, id, parent, false) == off + "" == off;
    }
  }

  /** Formatting puts in newlines and changes nothing else. */
  lemma {:induction false} FormatAddsNewlines(mem: Memory, t: Tree, parent: int)
    requires Linked(mem, t)
    ensures WithoutNewlines(Print(mem, t, parent, true)) == WithoutNewlines(Print(mem, t, parent, false))
    decreases t, 0
  {
    BeforeFormat(mem, t.id, parent);
    var (b1, b0) := (Before(mem, t.id, parent, true), Before(mem, t.id, parent, false));
    if Descends(mem, t.id, parent) {
      FormatAddsNewlinesAll(mem, t.kids, t.id);
      EndTagFormat(mem, t.id);
      WithoutThree(b1, PrintAll(mem, t.kids, t.id, true), EndTag(mem, t.id, true));
      WithoutThree(b0, PrintAll(mem, t.kids, t.id, false), EndTag(mem, t.id, false));
    } else {
      WithoutAppend(b1, "");
      WithoutAppend(b0, "");
    }
  }

  lemma WithoutThree(a: string, b: string, c: string)
    ensures WithoutNewlines(a + (b + c)) == WithoutNewlines(a) + (WithoutNewlines(b) + WithoutNewlines(c))
  {
    WithoutAppend(a, b + c);
    WithoutAppend(b, c);
  }

  lemma {:induction false} FormatAddsNewlinesAll(mem: Memory, ts: seq<Tree>, parent: int)
    requires LinkedAll(mem, ts)
    ensures WithoutNewlines(PrintAll(mem, ts, parent, true)) == WithoutNewlines(PrintAll(mem, ts, parent, false))
    decreases ts, 1
  {
    if ts != [] {
      FormatAddsNewlines(mem, ts[0], parent);
      FormatAddsNewlinesAll(mem, ts[1..], parent);
      WithoutAppend(Print(mem, ts[0], parent, true), PrintAll(mem, ts[1..], parent, true));
      WithoutAppend(Print(mem, ts[0], parent, false), PrintAll(mem, ts[1..], parent, false));
    }
  }
}
