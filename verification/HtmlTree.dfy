/**
  The non-recursive HTML printer: a walk over first-child, next-sibling and parent pointers
  that emits what the obvious recursive printer emits.
 */
module HtmlTree {
  import Bits
  import opened Options

  datatype Kind = Document | Element | Attribute | Text | Comment | PI | EntityRef | Preserve | Unknown

  /** What the element table says about a tag. */
  datatype Desc = Desc(name: string, empty: bool, saveEndTag: bool, isInline: bool)

  /** A node in memory; pointers are indices, and -1 is the null pointer. */
  datatype Rec = Rec(
    kind: Kind,
    name: Option<string>,
    qname: string,             // name with its namespace prefix
    head: string,              // declarations and attributes of an element; text of an attribute or of a document's DTD
    content: Option<string>,
    escaped: string,           // the content with entities encoded
    noEncode: bool,            // a text node marked as not to be encoded
    info: Option<Desc>,        // table entry of an element without namespace
    parent: int, children: int, last: int, next: int)

  type Memory = seq<Rec>

  ghost predicate Pointers(mem: Memory) {
    forall i :: 0 <= i < |mem| ==> -1 <= mem[i].parent < |mem| && -1 <= mem[i].next < |mem|
  }

  /** The shape of a tree in memory. */
  datatype Tree = Tree(id: nat, kids: seq<Tree>)

  function Ids(t: Tree): set<nat>
    decreases t, 0
  {
    {t.id} + IdsAll(t.kids)
  }

  function IdsAll(ts: seq<Tree>): set<nat>
    decreases ts, 1
  {
    if ts == [] then {} else Ids(ts[0]) + IdsAll(ts[1..])
  }

  function Size(t: Tree): (n: nat)
    ensures n > 0
    decreases t, 0
  {
    1 + SizeAll(t.kids)
  }

  function SizeAll(ts: seq<Tree>): (n: nat)
    decreases ts, 1
  {
    if ts == [] then 0 else Size(ts[0]) + SizeAll(ts[1..])
  }

  /** The child and sibling pointers of `mem` lay out `t`. Nothing is asked of the parent pointers. */
  ghost predicate Linked(mem: Memory, t: Tree)
    decreases t, 0
  {
    && t.id < |mem|
    && t.id !in IdsAll(t.kids)
    && (if t.kids == [] then mem[t.id].children == -1 && mem[t.id].last == -1
        else mem[t.id].children == t.kids[0].id && mem[t.id].last == t.kids[|t.kids| - 1].id)
    && LinkedAll(mem, t.kids)
  }

  ghost predicate LinkedAll(mem: Memory, ts: seq<Tree>)
    decreases ts, 1
  {
    ts != [] ==>
      && Linked(mem, ts[0])
      && mem[ts[0].id].next == (if |ts| == 1 then -1 else ts[1].id)
      && LinkedAll(mem, ts[1..])
  }

  // ----- the recursive printer -----

  predicate IsText(k: Kind) { k == Text || k == EntityRef }

  predicate StartsWithP(name: string) { name != "" && name[0] == 'p' }

  /** A newline is wanted around the children of an element. */
  predicate BreaksInside(mem: Memory, id: nat, child: int, format: bool)
    requires id < |mem|
  {
    var n := mem[id];
    && format && n.info.Some? && !n.info.value.isInline
    && 0 <= child < |mem| && !IsText(mem[child].kind)
    && n.children != n.last
    && n.name.Some? && !StartsWithP(n.name.value)
  }

  /** The newline after an element that has a following sibling. */
  function After(mem: Memory, id: nat, parent: int, format: bool): string
    requires id < |mem|
  {
    var n := mem[id];
    if format && n.info.Some? && !n.info.value.isInline &&
       0 <= n.next < |mem| && !IsText(mem[n.next].kind) &&
       0 <= parent < |mem| && mem[parent].name.Some? && !StartsWithP(mem[parent].name.value)
    then "\n" else ""
  }

  /** Whether text under this parent is printed without encoding. */
  predicate RawParent(mem: Memory, parent: int) {
    0 <= parent < |mem| && mem[parent].name.Some? && Bits.LowerAll(mem[parent].name.value) in {"script", "style"}
  }

  /** What a node other than a document or an element prints. */
  function Leaf(mem: Memory, id: nat, parent: int): string
    requires id < |mem|
  {
    var n := mem[id];
    match n.kind
    case Attribute => n.head
    case Text =>
      if n.content.None? then ""
      else if !n.noEncode && !RawParent(mem, parent) then n.escaped
      else n.content.value
    case Comment => if n.content.Some? then "<!--" + n.content.value + "-->" else ""
    case PI =>
      if n.name.None? then ""
      else "<?" + n.name.value + (if n.content.Some? then " " + n.content.value else "") + ">"
    case EntityRef => "&" + (if n.name.Some? then n.name.value else "") + ";"
    case Preserve => if n.content.Some? then n.content.value else ""
    case _ => ""
  }

  /** The start tag, with the end tag where there are no children to print. */
  function StartTag(mem: Memory, id: nat, format: bool): string
    requires id < |mem|
  {
    var n := mem[id];
    "<" + n.qname + n.head +
    (if n.info.Some? && n.info.value.empty then ">"
     else if n.children == -1 then
       (if n.info.Some? && n.info.value.saveEndTag && n.info.value.name !in {"html", "body"} then ">"
        else "></" + n.qname + ">")
     else ">" + (if BreaksInside(mem, id, n.children, format) then "\n" else ""))
  }

  /** What follows the children of a document or an element. */
  function EndTag(mem: Memory, id: nat, format: bool): string
    requires id < |mem|
  {
    var n := mem[id];
    if n.kind == Document then "\n"
    else
      (if BreaksInside(mem, id, n.last, format) then "\n" else "") +
      "</" + n.qname + ">" + After(mem, id, n.parent, format)
  }

  /** Whether the printer goes down into the children of a node it meets under `parent`. */
  predicate Descends(mem: Memory, id: nat, parent: int)
    requires id < |mem|
  {
    var n := mem[id];
    n.children != -1 &&
    ((n.kind == Document && n.parent == parent) || (n.kind == Element && !(n.info.Some? && n.info.value.empty)))
  }

  /** What a node prints before its children, or altogether when it has none to print. */
  function Before(mem: Memory, id: nat, parent: int, format: bool): string
    requires id < |mem|
  {
    var n := mem[id];
    match n.kind
    case Document => n.head + (if n.children == -1 then "\n" else "")
    case Element =>
      StartTag(mem, id, format) +
      (if Descends(mem, id, parent) then ""
       else After(mem, id, if n.children != -1 then n.parent else parent, format))
    case _ => Leaf(mem, id, parent)
  }

  /** The recursive printer. */
  function Print(mem: Memory, t: Tree, parent: int, format: bool): (s: string)
    requires Linked(mem, t)
    decreases t, 0
  {
    Before(mem, t.id, parent, format) +
    (if Descends(mem, t.id, parent) then PrintAll(mem, t.kids, t.id, format) + EndTag(mem, t.id, format) else "")
  }

  function PrintAll(mem: Memory, ts: seq<Tree>, parent: int, format: bool): (s: string)
    requires LinkedAll(mem, ts)
    decreases ts, 1
  {
    if ts == [] then "" else Print(mem, ts[0], parent, format) + PrintAll(mem, ts[1..], parent, format)
  }

  // ----- the walk -----

  /** A node the walk is at or inside, with the siblings still to come after it. */
  datatype Frame = Frame(t: Tree, rest: seq<Tree>)

  /** The pointer kept in `parent` when the walk is directly inside the first frame. */
  ghost function ParentOf(mem: Memory, root: Tree, frames: seq<Frame>): int
    requires root.id < |mem|
  {
    if frames == [] then mem[root.id].parent else frames[0].t.id
  }

  /** `f` is a place in the tree below `root`, directly inside the frames `above`. */
  ghost predicate Place(mem: Memory, root: Tree, f: Frame, above: seq<Frame>) {
    && Linked(mem, f.t) && LinkedAll(mem, f.rest)
    && (if above == [] then f.t == root && f.rest == []
        else
          && Ids(f.t) + IdsAll(f.rest) <= IdsAll(root.kids)
          && Size(f.t) + SizeAll(f.rest) < Size(root)
          && mem[f.t.id].next == if f.rest == [] then -1 else f.rest[0].id)
  }

  /** The frames the walk is inside of: each was entered with its parent pointer checked. */
  ghost predicate Path(mem: Memory, root: Tree, frames: seq<Frame>)
    decreases |frames|
  {
    frames != [] ==>
      && Linked(mem, root)
      && Place(mem, root, frames[0], frames[1..])
      && mem[frames[0].t.id].parent == ParentOf(mem, root, frames[1..])
      && Path(mem, root, frames[1..])
  }

  /** What is still to be printed once the walk is done with a node that has `rest` after it. */
  ghost function Still(mem: Memory, root: Tree, rest: seq<Tree>, frames: seq<Frame>, format: bool): string
    requires Linked(mem, root) && LinkedAll(mem, rest) && Path(mem, root, frames)
    decreases |frames|
  {
    PrintAll(mem, rest, ParentOf(mem, root, frames), format) +
    (if frames == [] then ""
     else EndTag(mem, frames[0].t.id, format) + Still(mem, root, frames[0].rest, frames[1..], format))
  }

  ghost function Work(rest: seq<Tree>, frames: seq<Frame>): (n: nat)
    decreases |frames|
  {
    2 * SizeAll(rest) + (if frames == [] then 0 else 1 + Work(frames[0].rest, frames[1..]))
  }

  lemma IdInside(root: Tree, t: Tree)
    requires Ids(t) <= IdsAll(root.kids) && root.id !in IdsAll(root.kids)
    ensures t.id != root.id
  {
    assert t.id in Ids(t);
  }

  lemma Associates(a: string, b: string, c: string)
    ensures (a + b) + c == a + (b + c)
  {
  }

  /** What the walk has still to print when it is about to visit the node at `at`. */
  ghost function Todo(mem: Memory, root: Tree, at: Frame, above: seq<Frame>, format: bool): string
    requires Linked(mem, root) && Path(mem, root, above) && Place(mem, root, at, above)
  {
    Print(mem, at.t, ParentOf(mem, root, above), format) + Still(mem, root, at.rest, above, format)
  }

  lemma NextSibling(mem: Memory, root: Tree, at: Frame, above: seq<Frame>, format: bool)
    requires Linked(mem, root) && Path(mem, root, above) && above != [] && Place(mem, root, at, above) && at.rest != []
    ensures var next := Frame(at.rest[0], at.rest[1..]);
            && Place(mem, root, next, above)
            && Still(mem, root, at.rest, above, format) == Todo(mem, root, next, above, format)
            && Work(at.rest, above) == 2 * Size(next.t) + Work(next.rest, above)
  {
  }

  lemma GoUp(mem: Memory, root: Tree, above: seq<Frame>, format: bool)
    requires Linked(mem, root) && Path(mem, root, above) && above != []
    ensures Still(mem, root, [], above, format) ==
            EndTag(mem, above[0].t.id, format) + Still(mem, root, above[0].rest, above[1..], format)
    ensures Work([], above) == 1 + Work(above[0].rest, above[1..])
  {
  }

  /** From a finished node on to the next one to print, closing elements on the way up; or to the end. */
  method Climb(mem: Memory, root: nat, cur: nat, parent: int, format: bool, ghost rt: Tree, ghost at: Frame, ghost above: seq<Frame>)
    returns (finished: bool, cur': nat, parent': int, text: string, ghost at': Frame, ghost above': seq<Frame>)
    requires Pointers(mem) && Linked(mem, rt) && rt.id == root && Path(mem, rt, above) && Place(mem, rt, at, above)
    requires cur == at.t.id && parent == ParentOf(mem, rt, above)
    ensures finished ==> text == Still(mem, rt, at.rest, above, format)
    ensures !finished ==>
              && Path(mem, rt, above') && Place(mem, rt, at', above')
              && cur' == at'.t.id && parent' == ParentOf(mem, rt, above') && above' != []
              && text + Todo(mem, rt, at', above', format) == Still(mem, rt, at.rest, above, format)
              && 2 * Size(at'.t) + Work(at'.rest, above') <= Work(at.rest, above)
  {
    cur', parent', text := cur, parent, "";
    at', above' := at, above;
    while cur' != root
      invariant Path(mem, rt, above') && Place(mem, rt, at', above')
      invariant cur' == at'.t.id && parent' == ParentOf(mem, rt, above')
      invariant text + Still(mem, rt, at'.rest, above', format) == Still(mem, rt, at.rest, above, format)
      invariant Work(at'.rest, above') <= Work(at.rest, above)
      decreases |above'|
    {
      if mem[cur'].next != -1 {
        NextSibling(mem, rt, at', above', format);
        cur' := mem[cur'].next;
        at' := Frame(at'.rest[0], at'.rest[1..]);
        return false, cur', parent', text, at', above';
      }
      GoUp(mem, rt, above', format);
      Associates(text, EndTag(mem, above'[0].t.id, format), Still(mem, rt, above'[0].rest, above'[1..], format));
      cur' := parent';
      parent' := mem[cur'].parent;
      text := text + EndTag(mem, cur', format);
      at', above' := above'[0], above'[1..];
    }
    if above' != [] {
      IdInside(rt, at'.t);
    }
    finished := true;
  }

  /** First child and the others, as a place one level down. */
  ghost function Inside(t: Tree): Frame
    requires t.kids != []
  {
    Frame(t.kids[0], t.kids[1..])
  }

  lemma DownPlace(mem: Memory, root: Tree, at: Frame, above: seq<Frame>)
    requires Linked(mem, root) && Path(mem, root, above) && Place(mem, root, at, above)
    requires mem[at.t.id].parent == ParentOf(mem, root, above) && mem[at.t.id].children != -1
    ensures at.t.kids != [] && mem[at.t.id].children == at.t.kids[0].id
    ensures Path(mem, root, [at] + above) && Place(mem, root, Inside(at.t), [at] + above)
  {
    assert ([at] + above)[1..] == above;
    var kids := at.t.kids;
    assert LinkedAll(mem, kids);
    assert IdsAll(kids) == Ids(kids[0]) + IdsAll(kids[1..]);
    assert SizeAll(kids) == Size(kids[0]) + SizeAll(kids[1..]);
  }

  lemma DownText(mem: Memory, root: Tree, at: Frame, above: seq<Frame>, format: bool)
    requires Linked(mem, root) && Path(mem, root, above) && Place(mem, root, at, above)
    requires at.t.kids != [] && Path(mem, root, [at] + above) && Place(mem, root, Inside(at.t), [at] + above)
    requires Descends(mem, at.t.id, mem[at.t.id].parent)
    ensures var kid := Inside(at.t);
            Print(mem, at.t, mem[at.t.id].parent, format) + Still(mem, root, at.rest, above, format) ==
            Before(mem, at.t.id, mem[at.t.id].parent, format) +
            (Print(mem, kid.t, at.t.id, format) + Still(mem, root, kid.rest, [at] + above, format))
  {
    var kid, in' := Inside(at.t), [at] + above;
    assert in'[1..] == above;
    var b := Before(mem, at.t.id, mem[at.t.id].parent, format);
    var first, others := Print(mem, kid.t, at.t.id, format), PrintAll(mem, kid.rest, at.t.id, format);
    var close, still := EndTag(mem, at.t.id, format), Still(mem, root, at.rest, above, format);
    PrintDown(mem, at.t, format);
    assert Still(mem, root, kid.rest, in', format) == others + (close + still);
    Regroup(b, first, others, close, still);
  }

  lemma PrintDown(mem: Memory, t: Tree, format: bool)
    requires Linked(mem, t) && t.kids != [] && Descends(mem, t.id, mem[t.id].parent)
    ensures Linked(mem, t.kids[0]) && LinkedAll(mem, t.kids[1..])
    ensures Print(mem, t, mem[t.id].parent, format) ==
            Before(mem, t.id, mem[t.id].parent, format) +
            ((Print(mem, t.kids[0], t.id, format) + PrintAll(mem, t.kids[1..], t.id, format)) + EndTag(mem, t.id, format))
  {
    assert LinkedAll(mem, t.kids);
  }

  lemma Regroup(a: string, b: string, c: string, d: string, e: string)
    ensures (a + ((b + c) + d)) + e == a + (b + (c + (d + e)))
  {
  }

  lemma DownWork(at: Frame, above: seq<Frame>)
    requires at.t.kids != []
    ensures 2 * Size(Inside(at.t).t) + Work(Inside(at.t).rest, [at] + above) < 2 * Size(at.t) + Work(at.rest, above)
  {
    assert ([at] + above)[1..] == above;
  }

  /** A node met under a parent it does not point to prints, if it is an element with children, as it does on its own. */
  lemma StrayElement(mem: Memory, t: Tree, parent: int, format: bool)
    requires Linked(mem, t) && mem[t.id].kind == Element && mem[t.id].children != -1
    ensures Print(mem, t, parent, format) == Print(mem, t, mem[t.id].parent, format)
  {
  }

  /** Going down: what the node prints first, and then everything from its first child on. */
  lemma GoDown(mem: Memory, root: Tree, at: Frame, above: seq<Frame>, format: bool, out: string)
    requires Linked(mem, root) && Path(mem, root, above) && Place(mem, root, at, above)
    requires mem[at.t.id].parent == ParentOf(mem, root, above) && Descends(mem, at.t.id, mem[at.t.id].parent)
    ensures at.t.kids != [] && mem[at.t.id].children == at.t.kids[0].id
    ensures Path(mem, root, [at] + above) && Place(mem, root, Inside(at.t), [at] + above)
    ensures out + Todo(mem, root, at, above, format) ==
            (out + Before(mem, at.t.id, mem[at.t.id].parent, format)) + Todo(mem, root, Inside(at.t), [at] + above, format)
  {
    DownPlace(mem, root, at, above);
    DownText(mem, root, at, above, format);
    Associates(out, Before(mem, at.t.id, mem[at.t.id].parent, format), Todo(mem, root, Inside(at.t), [at] + above, format));
  }

  /**
    Visits one node: prints it up to its children, or altogether. An element that does not point
    back to the node the walk came from is printed by a walk of its own.
   */
  method Visit(mem: Memory, cur: nat, parent: int, format: bool, ghost t: Tree) returns (printed: string, down: bool)
    requires Pointers(mem) && Linked(mem, t) && t.id == cur
    ensures down ==> mem[cur].parent == parent && Descends(mem, cur, parent) && printed == Before(mem, cur, parent, format)
    ensures !down ==> printed == Print(mem, t, parent, format)
    decreases Size(t), if mem[cur].parent == parent then 0 else 2
  {
    var n := mem[cur];
    if n.kind == Element && n.parent != parent && n.children != -1 {
      StrayElement(mem, t, parent, format);
      printed := Dump(mem, cur, format, t);
      down := false;
    } else {
      printed := Before(mem, cur, parent, format);
      down := Descends(mem, cur, parent);
    }
  }

  /**
    The pointer walk. It terminates and emits what the recursive printer emits, for every tree
    whose child and sibling pointers are sound, whatever the parent pointers are.
   */
  method Dump(mem: Memory, root: nat, format: bool, ghost rt: Tree) returns (out: string)
    requires Pointers(mem) && Linked(mem, rt) && rt.id == root
    ensures out == Print(mem, rt, mem[root].parent, format)
    decreases Size(rt), 1
  {
    var cur: nat, parent := root, mem[root].parent;
    out := "";
    ghost var at, above := Frame(rt, []), [];
    while true
      invariant Path(mem, rt, above) && Place(mem, rt, at, above)
      invariant cur == at.t.id && parent == ParentOf(mem, rt, above)
      invariant out + Todo(mem, rt, at, above, format) == Print(mem, rt, mem[root].parent, format)
      decreases 2 * Size(at.t) + Work(at.rest, above)
    {
      var printed, down := Visit(mem, cur, parent, format, at.t);
      if down {
        GoDown(mem, rt, at, above, format, out);
        DownWork(at, above);
        parent, cur := cur, mem[cur].children;
        at, above := Inside(at.t), [at] + above;
        out := out + printed;
      } else {
        Associates(out, printed, Still(mem, rt, at.rest, above, format));
        out := out + printed;
        var finished, text;
        finished, cur, parent, text, at, above := Climb(mem, root, cur, parent, format, rt, at, above);
        if finished {
          return out + text;
        }
        Associates(out, text, Todo(mem, rt, at, above, format));
        out := out + text;
      }
    }
  }
}
