/**
 * The resumable scanners of the HTML push parser
 * (testbed/libxml2/HTMLparser.c): a search remembers how far it got and
 * whether it stopped inside a quoted attribute value, so that the next chunk
 * is scanned from there.
 */
module HtmlLookup {
  import opened Bits
  import opened Options

  /** INT_MAX / 2: where a search gives up. */
  const CUT: nat := 0x3FFF_FFFF

  /** What a caller looks for; `next` and `third` are zero when unused. */
  datatype Query = Query(first: Byte, next: Byte, third: Byte, skipValues: bool)
  {
    function Ahead(): nat { if third != 0 then 2 else if next != 0 then 1 else 0 }

    /** The bytes from `k` on are the sequence. */
    predicate Matches(buf: seq<Byte>, k: nat)
      requires k + Ahead() < |buf|
    {
      && buf[k] == first
      && (third != 0 ==> buf[k + 1] == next && buf[k + 2] == third)
      && (third == 0 && next != 0 ==> buf[k + 1] == next)
    }
  }

  predicate IsQuote(c: Byte) { c == 34 || c == 39 }

  /** The quote that is open after `k` bytes, zero when none is. */
  function Quote(buf: seq<Byte>, k: nat): Byte
    requires k <= |buf|
  {
    if k == 0 then 0
    else
      var q, c := Quote(buf, k - 1), buf[k - 1];
      if q != 0 then (if c == q then 0 else q)
      else if IsQuote(c) then c else 0
  }

  function Carried(q: Query, buf: seq<Byte>, k: nat): Byte
    requires k <= |buf|
  {
    if q.skipValues then Quote(buf, k) else 0
  }

  /** The search stops at `k`: a match outside quotes, or the cut. */
  predicate Stop(q: Query, buf: seq<Byte>, k: nat)
  {
    && k + q.Ahead() < |buf|
    && (k == CUT || (Carried(q, buf, k) == 0 && !(q.skipValues && IsQuote(buf[k])) && q.Matches(buf, k)))
  }

  predicate NoStop(q: Query, buf: seq<Byte>, from: nat, to: nat)
  {
    forall k :: from <= k < to ==> !Stop(q, buf, k)
  }

  /** `r` is what a search of `buf` starting at `from` must return. */
  ghost predicate IsAnswer(q: Query, buf: seq<Byte>, from: nat, r: int)
  {
    if r < 0 then r == -1 && NoStop(q, buf, from, |buf|)
    else exists k: nat :: from <= k && StopsFirst(q, buf, from, k, r)
  }

  predicate StopsFirst(q: Query, buf: seq<Byte>, from: nat, k: nat, r: int)
  {
    NoStop(q, buf, from, k) && Stop(q, buf, k) && r == if k == CUT then k - 2 else k
  }

  lemma AnswerIsUnique(q: Query, buf: seq<Byte>, from: nat, r: int, s: int)
    requires IsAnswer(q, buf, from, r) && IsAnswer(q, buf, from, s)
    ensures r == s
  {
    if r >= 0 && s >= 0 {
      var j: nat :| from <= j && StopsFirst(q, buf, from, j, r);
      var k: nat :| from <= k && StopsFirst(q, buf, from, k, s);
      assert j == k;
    }
  }

  lemma {:induction false} QuoteStays(buf: seq<Byte>, more: seq<Byte>, k: nat)
    requires k <= |buf|
    ensures Quote(buf + more, k) == Quote(buf, k)
  {
    if k > 0 { QuoteStays(buf, more, k - 1); }
  }

  /** More data never undoes a decision. */
  lemma StopStays(q: Query, buf: seq<Byte>, more: seq<Byte>, k: nat)
    requires k + q.Ahead() < |buf|
    ensures Stop(q, buf + more, k) <==> Stop(q, buf, k)
  {
    QuoteStays(buf, more, k);
  }

  /** A position found in the data so far is the position in all of it. */
  lemma AnswerStays(q: Query, buf: seq<Byte>, more: seq<Byte>, r: int)
    requires r >= 0 && IsAnswer(q, buf, 0, r)
    ensures IsAnswer(q, buf + more, 0, r)
  {
    var k: nat :| StopsFirst(q, buf, 0, k, r);
    forall j: nat | j <= k ensures Stop(q, buf + more, j) <==> Stop(q, buf, j) {
      StopStays(q, buf, more, j);
    }
    assert StopsFirst(q, buf + more, 0, k, r);
  }

  /** Starting behind a part that was ruled out misses nothing. */
  lemma ResumedAnswer(q: Query, buf: seq<Byte>, from: nat, r: int)
    requires NoStop(q, buf, 0, from)
    requires IsAnswer(q, buf, from, r)
    ensures IsAnswer(q, buf, 0, r)
  {
    if r >= 0 {
      var k: nat :| from <= k && StopsFirst(q, buf, from, k, r);
      assert StopsFirst(q, buf, 0, k, r);
    }
  }

  /** No answer lies inside a quoted attribute value, of either kind. */
  lemma NotInValues(q: Query, pre: seq<Byte>, mark: Byte, value: seq<Byte>, rest: seq<Byte>, k: nat)
    requires q.skipValues && (mark == 34 || mark == 39)
    requires Quote(pre, |pre|) == 0 && mark !in value
    requires |pre| <= k <= |pre| + |value| + 1 && k != CUT
    ensures !Stop(q, pre + [mark] + value + [mark] + rest, k)
    ensures Quote(pre + [mark] + value + [mark] + rest, |pre| + |value| + 2) == 0
  {
    var buf := pre + [mark] + value + [mark] + rest;
    QuoteStays(pre, [mark] + value + [mark] + rest, |pre|);
    assert buf == pre + ([mark] + value + [mark] + rest);
    InValue(buf, |pre|, mark, |value|, if k > |pre| then k - |pre| - 1 else 0);
    InValue(buf, |pre|, mark, |value|, |value|);
  }

  /** Behind its opening mark the value is quoted, up to its closing mark. */
  lemma {:induction false} InValue(buf: seq<Byte>, at: nat, mark: Byte, len: nat, j: nat)
    requires at + len + 1 < |buf| && j <= len && (mark == 34 || mark == 39)
    requires Quote(buf, at) == 0 && buf[at] == mark && forall i :: at < i <= at + len ==> buf[i] != mark
    ensures Quote(buf, at + 1 + j) == mark
  {
    if j > 0 { InValue(buf, at, mark, len, j - 1); }
  }

  function Concat(chunks: seq<seq<Byte>>): seq<Byte>
  {
    if chunks == [] then [] else chunks[0] + Concat(chunks[1..])
  }

  // ---- Ends of comments --------------------------------------------------

  /** `-->` or `--!>` stands at `k`. */
  predicate EndsComment(buf: seq<Byte>, k: nat)
  {
    && k + 2 < |buf| && buf[k] == 45 && buf[k + 1] == 45
    && (buf[k + 2] == 62 || (k + 3 < |buf| && buf[k + 2] == 33 && buf[k + 3] == 62))
  }

  /** No comment end stands at `k`, whatever data follows. */
  predicate RuledOut(buf: seq<Byte>, k: nat)
  {
    && k + 1 < |buf|
    && (buf[k] == 45 && buf[k + 1] == 45 ==>
          && k + 2 < |buf| && buf[k + 2] != 62
          && (buf[k + 2] == 33 ==> k + 3 < |buf| && buf[k + 3] != 62))
  }

  predicate RuledOutBelow(buf: seq<Byte>, n: nat)
  {
    forall k :: 0 <= k < n ==> RuledOut(buf, k)
  }

  /** `mark` is the first comment end in `buf`, or -1 when there is none. */
  predicate IsCommentEnd(buf: seq<Byte>, mark: int)
  {
    if mark < 0 then mark == -1 && forall k :: 0 <= k < |buf| ==> !EndsComment(buf, k)
    else EndsComment(buf, mark) && forall k :: 0 <= k < mark ==> !EndsComment(buf, k)
  }

  const DASHES := Query(45, 45, 0, false)

  // ---- The comment loop --------------------------------------------------

  /** The first position from `c` on where a search for two dashes stops. */
  function FirstStop(buf: seq<Byte>, c: nat): (k: Option<nat>)
    ensures k.None? ==> NoStop(DASHES, buf, c, |buf|)
    ensures k.Some? ==> c <= k.value && NoStop(DASHES, buf, c, k.value) && Stop(DASHES, buf, k.value)
    decreases |buf| - c
  {
    if c >= |buf| then None
    else if Stop(DASHES, buf, c) then Some(c)
    else FirstStop(buf, c + 1)
  }

  function At(buf: seq<Byte>, k: nat): Byte { if k < |buf| then buf[k] else 0 }

  /** `>` or `!>` stands at `k`. */
  predicate Closes(buf: seq<Byte>, k: nat)
  {
    At(buf, k) == 62 || (At(buf, k) == 33 && At(buf, k + 1) == 62)
  }

  /** One turn of the comment loop: it returns, with a new saved index, or searches again from another one. */
  datatype Turn = Return(mark: int, index: nat) | Again(index: nat)

  function OneTurn(buf: seq<Byte>, c: nat): Turn
  {
    var k := FirstStop(buf, c);
    if k.None? then Return(-1, if buf == [] then 0 else |buf| - 1)
    else
      var mark := if k.value == CUT then CUT - 2 else k.value;
      if Closes(buf, mark + 2) then Return(mark, 0)
      else if mark + (if At(buf, mark + 2) == 33 then 3 else 2) >= |buf| then Return(-1, mark)
      else Again(mark + 1)
  }

  /** The loop after at most `n` turns from the saved index `c`. */
  function After(buf: seq<Byte>, c: nat, n: nat): Turn
    decreases n
  {
    if n == 0 then Again(c)
    else
      var t := OneTurn(buf, c);
      if t.Return? then t else After(buf, t.index, n - 1)
  }

  /**
    Where the loop works: the data ends before the cut can be met, a comment end stands before it, or the
    last bytes are two dashes and an exclamation mark that stop the loop just before it.
   */
  predicate BeforeCut(buf: seq<Byte>)
  {
    || |buf| <= CUT + 1
    || (exists k :: 0 <= k < CUT && EndsComment(buf, k))
    || (|buf| == CUT + 2 && buf[CUT - 1] == 45 && buf[CUT] == 45 && buf[CUT + 1] == 33)
  }

  /** A search that starts behind what is ruled out does not get to the cut. */
  lemma StopsBeforeCut(buf: seq<Byte>, c: nat)
    requires BeforeCut(buf) && c < |buf| && RuledOutBelow(buf, c)
    ensures c <= CUT
    ensures FirstStop(buf, c).Some? ==> FirstStop(buf, c).value < CUT
  {
    if |buf| > CUT + 1 {
      var k := if exists k :: 0 <= k < CUT && EndsComment(buf, k)
               then var k :| 0 <= k < CUT && EndsComment(buf, k); k else CUT - 1;
      assert !RuledOut(buf, k);
      assert c <= k;
      assert Stop(DASHES, buf, k);
    }
  }

  /** What one turn does where the loop works. */
  lemma GoodTurn(buf: seq<Byte>, c: nat)
    requires BeforeCut(buf) && c < |buf| && RuledOutBelow(buf, c)
    ensures var t := OneTurn(buf, c);
      && t.index < |buf|
      && (t.Again? ==> c < t.index && RuledOutBelow(buf, t.index))
      && (t.Return? ==> IsCommentEnd(buf, t.mark) && (t.mark == -1 ==> RuledOutBelow(buf, t.index)) && (t.mark != -1 ==> t.index == 0))
  {
    StopsBeforeCut(buf, c);
    var k := FirstStop(buf, c);
    if k.None? {
      RuledOutTo(buf, c, |buf| - 1);
      NoneRuledOut(buf, |buf| - 1);
    } else {
      RuledOutTo(buf, c, k.value);
      NoneRuledOut(buf, k.value);
    }
  }

  /** Positions that are no two dashes are ruled out. */
  lemma RuledOutTo(buf: seq<Byte>, c: nat, to: nat)
    requires RuledOutBelow(buf, c) && NoStop(DASHES, buf, c, to) && to < |buf|
    ensures RuledOutBelow(buf, to)
  {
    forall k | 0 <= k < to ensures RuledOut(buf, k) {
      if c <= k { assert !Stop(DASHES, buf, k); }
    }
  }

  lemma NoneRuledOut(buf: seq<Byte>, n: nat)
    requires RuledOutBelow(buf, n)
    ensures forall k :: 0 <= k < n ==> !EndsComment(buf, k)
  {
    forall k | 0 <= k < n ensures !EndsComment(buf, k) {
      assert RuledOut(buf, k);
    }
  }

  /** Where the loop works it ends with the first comment end. */
  lemma {:induction false} GoodLoop(buf: seq<Byte>, c: nat) returns (n: nat)
    requires BeforeCut(buf) && c < |buf| && RuledOutBelow(buf, c)
    ensures After(buf, c, n).Return? && IsCommentEnd(buf, After(buf, c, n).mark)
    decreases |buf| - c
  {
    GoodTurn(buf, c);
    var t := OneTurn(buf, c);
    if t.Return? {
      n := 1;
    } else {
      var m := GoodLoop(buf, t.index);
      n := m + 1;
    }
  }

  /** What one turn does elsewhere: it goes on up to the cut, and is put back from there. */
  lemma BadTurn(buf: seq<Byte>, c: nat)
    requires !BeforeCut(buf) && c <= CUT
    ensures var t := OneTurn(buf, c);
      || (t.Again? && c < t.index <= CUT)
      || t == if Closes(buf, CUT) then Return(CUT - 2, 0) else Again(CUT - 1)
  {
    assert Stop(DASHES, buf, CUT);
    var k := FirstStop(buf, c).value;
    if k < CUT { assert !EndsComment(buf, k); }
  }

  /** With `>` or `!>` at the cut, a position before it is answered that is no comment end. */
  lemma {:induction false} WrongAnswer(buf: seq<Byte>, c: nat) returns (n: nat)
    requires !BeforeCut(buf) && Closes(buf, CUT) && c <= CUT
    ensures After(buf, c, n) == Return(CUT - 2, 0) && !IsCommentEnd(buf, CUT - 2)
    decreases CUT - c
  {
    BadTurn(buf, c);
    assert !EndsComment(buf, CUT - 2);
    var t := OneTurn(buf, c);
    if t.Return? {
      n := 1;
    } else {
      var m := WrongAnswer(buf, t.index);
      n := m + 1;
    }
  }

  /** Otherwise the loop never ends. */
  lemma {:induction false} NeverEnds(buf: seq<Byte>, c: nat, n: nat)
    requires !BeforeCut(buf) && !Closes(buf, CUT) && c <= CUT
    ensures After(buf, c, n).Again?
    decreases n
  {
    if n > 0 {
      BadTurn(buf, c);
      NeverEnds(buf, OneTurn(buf, c).index, n - 1);
    }
  }

  lemma {:induction false} Settles(buf: seq<Byte>, c: nat, m: nat, n: nat)
    requires m <= n && After(buf, c, m).Return?
    ensures After(buf, c, n) == After(buf, c, m)
    decreases m
  {
    if m > 0 {
      var t := OneTurn(buf, c);
      if t.Again? { Settles(buf, t.index, m - 1, n - 1); }
    }
  }

  /** The loop on fresh data ends with the answer `mark`. */
  ghost predicate Answers(buf: seq<Byte>, mark: int)
  {
    exists n: nat :: After(buf, 0, n).Return? && After(buf, 0, n).mark == mark
  }

  /** Exactly when the comment loop finds what it looks for, and what it does otherwise. */
  lemma CommentLoop(buf: seq<Byte>)
    requires buf != []
    ensures (exists mark :: Answers(buf, mark) && IsCommentEnd(buf, mark)) <==> BeforeCut(buf)
    ensures !BeforeCut(buf) ==> (Answers(buf, CUT - 2) <==> Closes(buf, CUT))
    ensures !BeforeCut(buf) && !Closes(buf, CUT) ==> forall n: nat :: After(buf, 0, n).Again?
  {
    if BeforeCut(buf) {
      var n := GoodLoop(buf, 0);
      assert Answers(buf, After(buf, 0, n).mark);
    } else if Closes(buf, CUT) {
      var m := WrongAnswer(buf, 0);
      assert Answers(buf, CUT - 2);
      forall mark | Answers(buf, mark) ensures mark == CUT - 2 {
        var n: nat :| After(buf, 0, n).Return? && After(buf, 0, n).mark == mark;
        Settles(buf, 0, if m <= n then m else n, if m <= n then n else m);
      }
    } else {
      forall n: nat ensures After(buf, 0, n).Again? { NeverEnds(buf, 0, n); }
    }
  }

  /** Data that arrives in pieces stays before the cut if all of it does. */
  lemma PrefixBeforeCut(buf: seq<Byte>, more: seq<Byte>)
    requires BeforeCut(buf + more)
    ensures BeforeCut(buf)
  {
    var all := buf + more;
    if |buf| > CUT + 1 {
      if k :| 0 <= k < CUT && EndsComment(all, k) {
        if k + 3 < |buf| || all[k + 2] == 62 { assert EndsComment(buf, k); }
      }
    }
  }

  lemma RuledOutStays(buf: seq<Byte>, more: seq<Byte>, n: nat)
    requires RuledOutBelow(buf, n)
    ensures RuledOutBelow(buf + more, n)
    ensures forall k :: 0 <= k < n ==> !EndsComment(buf + more, k)
  {
    forall k | 0 <= k < n ensures RuledOut(buf + more, k) && !EndsComment(buf + more, k) {
      assert RuledOut(buf, k);
    }
  }

  class Scanner {
    var checkIndex: nat
    var endCheckState: Byte

    /** The saved state belongs to the first `checkIndex` bytes of `buf`. */
    ghost predicate Fits(q: Query, buf: seq<Byte>)
      reads this
    {
      && checkIndex + q.Ahead() <= |buf| && checkIndex <= CUT
      && endCheckState == Carried(q, buf, checkIndex)
    }

    constructor ()
      ensures checkIndex == 0 && endCheckState == 0
    {
      checkIndex, endCheckState := 0, 0;
    }

    method Lookup(buf: seq<Byte>, q: Query) returns (r: int)
      requires Fits(q, buf)
      modifies this
      ensures IsAnswer(q, buf, old(checkIndex), r)
      ensures r == -1 ==> Fits(q, buf) && checkIndex + q.Ahead() == |buf|
      ensures r != -1 ==> checkIndex == 0 && endCheckState == 0
    {
      var base, quote := checkIndex, endCheckState;
      while base + q.Ahead() < |buf|
        invariant checkIndex <= base <= CUT && base + q.Ahead() <= |buf|
        invariant quote == Carried(q, buf, base)
        invariant NoStop(q, buf, checkIndex, base)
        decreases |buf| - base
      {
        if base >= CUT {
          assert StopsFirst(q, buf, checkIndex, base, base - 2);
          checkIndex, endCheckState := 0, 0;
          return base - 2;
        }
        if q.skipValues && quote != 0 {
          if buf[base] == quote { quote := 0; }
        } else if q.skipValues && IsQuote(buf[base]) {
          quote := buf[base];
        } else if q.Matches(buf, base) {
          assert StopsFirst(q, buf, checkIndex, base, base);
          checkIndex, endCheckState := 0, 0;
          return base;
        }
        base := base + 1;
      }
      checkIndex, endCheckState := base, quote;
      r := -1;
    }

    /** One search per chunk as the data arrives: the answer is that of a
        single search over all the data, however it is cut up. */
    method LookupChunks(chunks: seq<seq<Byte>>, q: Query) returns (r: int)
      requires checkIndex == 0 && endCheckState == 0
      requires chunks != [] ==> |chunks[0]| >= q.Ahead()
      modifies this
      ensures IsAnswer(q, Concat(chunks), 0, r)
    {
      var buf: seq<Byte> := [];
      var i := 0;
      r := -1;
      while i < |chunks|
        invariant i <= |chunks|
        invariant Concat(chunks) == buf + Concat(chunks[i..])
        invariant i == 0 ==> buf == [] && checkIndex == 0 && endCheckState == 0
        invariant i > 0 ==> Fits(q, buf) && checkIndex + q.Ahead() == |buf|
        invariant NoStop(q, buf, 0, checkIndex)
        invariant r == -1
      {
        ghost var before := buf;
        Extend(q, buf, chunks[i]);
        buf := buf + chunks[i];
        assert buf + Concat(chunks[i + 1..]) == before + (chunks[i] + Concat(chunks[i + 1..]));
        ghost var from := checkIndex;
        r := Lookup(buf, q);
        ResumedAnswer(q, buf, from, r);
        i := i + 1;
        if r != -1 {
          AnswerStays(q, buf, Concat(chunks[i..]), r);
          return;
        }
      }
      assert buf + Concat(chunks[i..]) == buf;
    }

    /** The saved state still belongs to the data when a chunk is added. */
    lemma Extend(q: Query, buf: seq<Byte>, more: seq<Byte>)
      requires if buf == [] then checkIndex == 0 && endCheckState == 0 && |more| >= q.Ahead() else Fits(q, buf)
      requires NoStop(q, buf, 0, checkIndex)
      ensures Fits(q, buf + more) && NoStop(q, buf + more, 0, checkIndex)
    {
      QuoteStays(buf, more, checkIndex);
      forall k | 0 <= k < checkIndex ensures !Stop(q, buf + more, k) {
        StopStays(q, buf, more, k);
      }
    }

    /** `mark` is the first comment end; when there is none yet, no position
        before `checkIndex` can become one. */
    method CommentEnd(buf: seq<Byte>) returns (mark: int)
      requires endCheckState == 0 && checkIndex < |buf| && BeforeCut(buf)
      requires RuledOutBelow(buf, checkIndex)
      modifies this
      ensures IsCommentEnd(buf, mark)
      ensures endCheckState == 0 && checkIndex < |buf|
      ensures if mark == -1 then RuledOutBelow(buf, checkIndex) else checkIndex == 0
    {
      while true
        invariant endCheckState == 0 && checkIndex < |buf|
        invariant RuledOutBelow(buf, checkIndex)
        decreases |buf| - checkIndex
      {
        StopsBeforeCut(buf, checkIndex);
        GoodTurn(buf, checkIndex);
        var over;
        over, mark := TakeTurn(buf);
        if over { return; }
      }
    }

    /** The body of the loop. */
    method TakeTurn(buf: seq<Byte>) returns (over: bool, mark: int)
      requires endCheckState == 0 && checkIndex < |buf| && checkIndex <= CUT
      modifies this
      ensures endCheckState == 0
      ensures OneTurn(buf, old(checkIndex)) == if over then Return(mark, checkIndex) else Again(checkIndex)
    {
      ghost var from := checkIndex;
      mark := Lookup(buf, DASHES);
      AnswerIsFirstStop(buf, from, mark);
      if mark < 0 { return true, mark; }
      var c := if mark + 2 < |buf| then buf[mark + 2] else 0;
      if c == 62 || (c == 33 && mark + 3 < |buf| && buf[mark + 3] == 62) {
        checkIndex := 0;
        return true, mark;
      }
      var offset := if c == 33 then 3 else 2;
      if mark + offset >= |buf| {
        checkIndex := mark;
        return true, -1;
      }
      checkIndex := mark + 1;
      over := false;
    }

    method CommentEndChunks(chunks: seq<seq<Byte>>) returns (mark: int)
      requires checkIndex == 0 && endCheckState == 0
      requires chunks != [] ==> chunks[0] != []
      requires BeforeCut(Concat(chunks))
      modifies this
      ensures IsCommentEnd(Concat(chunks), mark)
    {
      var buf: seq<Byte> := [];
      var i := 0;
      mark := -1;
      while i < |chunks|
        invariant i <= |chunks|
        invariant Concat(chunks) == buf + Concat(chunks[i..])
        invariant i == 0 ==> buf == [] && checkIndex == 0
        invariant endCheckState == 0 && (i > 0 ==> checkIndex < |buf|)
        invariant RuledOutBelow(buf, checkIndex) && IsCommentEnd(buf, -1)
        invariant mark == -1
      {
        ghost var before := buf;
        RuledOutStays(buf, chunks[i], checkIndex);
        buf := buf + chunks[i];
        assert buf + Concat(chunks[i + 1..]) == before + (chunks[i] + Concat(chunks[i + 1..]));
        i := i + 1;
        PrefixBeforeCut(buf, Concat(chunks[i..]));
        mark := CommentEnd(buf);
        if mark != -1 {
          FirstEndStays(buf, Concat(chunks[i..]), mark);
          return;
        }
      }
      assert buf + Concat(chunks[i..]) == buf;
    }
  }

  /** A comment end found in the data so far is the first one in all of it. */
  lemma FirstEndStays(buf: seq<Byte>, more: seq<Byte>, mark: nat)
    requires IsCommentEnd(buf, mark)
    ensures IsCommentEnd(buf + more, mark)
  {
    assert forall k :: 0 <= k < mark ==> EndsComment(buf + more, k) ==> EndsComment(buf, k);
  }

  lemma AnswerIsFirstStop(buf: seq<Byte>, c: nat, mark: int)
    requires IsAnswer(DASHES, buf, c, mark) && c <= CUT
    ensures var k := FirstStop(buf, c);
      if k.None? then mark == -1 else mark == if k.value == CUT then CUT - 2 else k.value
  {
    var k := FirstStop(buf, c);
    if k.Some? { assert StopsFirst(DASHES, buf, c, k.value, if k.value == CUT then CUT - 2 else k.value); }
    AnswerIsUnique(DASHES, buf, c, mark, if k.None? then -1 else if k.value == CUT then CUT - 2 else k.value);
  }
}
