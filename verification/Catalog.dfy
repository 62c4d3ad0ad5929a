/**
 * Public identifiers in XML catalogs (testbed/libxml2/catalog.c): unwrapping
 * of `urn:publicid:` names, normalization of public identifiers, and the
 * recursion that resolves an external identifier. Identifiers are the
 * characters before the terminating zero.
 */
module Catalog {
  import opened Options

  type Id = string

  const URN: Id := "urn:publicid:"

  predicate IsUrn(s: Id) { |s| >= 13 && s[..13] == URN }

  // ---- Unwrapping -------------------------------------------------------

  /** The character an escape `%ab` stands for, when it is one of the eight. */
  function Escape(a: char, b: char): (c: Option<char>)
  {
    if a == '2' && b == 'B' then Some('+')
    else if a == '3' && b == 'A' then Some(':')
    else if a == '2' && b == 'F' then Some('/')
    else if a == '3' && b == 'B' then Some(';')
    else if a == '2' && b == '7' then Some('\'')
    else if a == '3' && b == 'F' then Some('?')
    else if a == '2' && b == '3' then Some('#')
    else if a == '2' && b == '5' then Some('%')
    else None
  }

  function EscapeAt(u: Id): (c: Option<char>)
  {
    if |u| >= 3 && u[0] == '%' then Escape(u[1], u[2]) else None
  }

  /** How many characters of `u` the next step reads. */
  function Reads(u: Id): (n: nat)
    requires u != ""
    ensures 1 <= n <= |u|
  {
    if EscapeAt(u).Some? then 3 else 1
  }

  /** What the next step writes. */
  function Writes(u: Id): (w: Id)
    requires u != ""
    ensures 1 <= |w| <= 2
  {
    if u[0] == '+' then " "
    else if u[0] == ':' then "//"
    else if u[0] == ';' then "::"
    else if EscapeAt(u).Some? then [EscapeAt(u).value]
    else [u[0]]
  }

  /** The whole identifier a URN body stands for. */
  function Expand(u: Id): Id
  {
    if u == "" then "" else Writes(u) + Expand(u[Reads(u)..])
  }

  /** What fits the 2000-byte buffer when `i` bytes of it are taken. */
  function Cut(u: Id, i: nat): Id
    decreases |u|
  {
    if u == "" || i > 1996 then ""
    else Writes(u) + Cut(u[Reads(u)..], i + |Writes(u)|)
  }

  function Unwrapped(urn: Id): Id
    requires IsUrn(urn)
  {
    Cut(urn[13..], 0)
  }

  lemma CutStep(u: Id, i: nat, whole: Id, done: Id)
    requires u != "" && i <= 1996
    requires whole == done + Cut(u, i)
    ensures whole == done + Writes(u) + Cut(u[Reads(u)..], i + |Writes(u)|)
  {
  }

  method UnwrapUrn(urn: Id) returns (r: Option<Id>)
    ensures r == if IsUrn(urn) then Some(Unwrapped(urn)) else None
  {
    if !IsUrn(urn) { return None; }
    var id := UnwrapBody(urn[13..]);
    r := Some(id);
  }

  method UnwrapBody(u: Id) returns (id: Id)
    ensures id == Cut(u, 0)
  {
    var result := new char[2000];
    var i, rest := 0, u;
    ghost var whole := Cut(u, 0);
    assert result[..0] + whole == whole;
    while rest != "" && i <= 1996
      invariant 0 <= i <= 1998
      invariant whole == result[..i] + Cut(rest, i)
      decreases |rest|
    {
      CutStep(rest, i, whole, result[..i]);
      var written, n := StoreStep(rest, result, i);
      i, rest := i + written, rest[n..];
    }
    assert Cut(rest, i) == "";
    id := result[..i];
  }

  /** One turn of the loop: what it writes at `i`, and how far it moves. */
  method StoreStep(u: Id, result: array<char>, i: nat) returns (written: nat, n: nat)
    requires u != "" && i + 2 <= result.Length
    modifies result
    ensures written == |Writes(u)| && n == Reads(u)
    ensures result[..i + written] == old(result[..i]) + Writes(u)
  {
    written, n := 1, 1;
    if u[0] == '+' {
      result[i] := ' ';
    } else if u[0] == ':' {
      result[i], result[i + 1] := '/', '/';
      written := 2;
    } else if u[0] == ';' {
      result[i], result[i + 1] := ':', ':';
      written := 2;
    } else {
      var c := EscapeAt(u);
      if c.Some? {
        result[i] := c.value;
        n := 3;
      } else {
        result[i] := u[0];
      }
    }
  }

  /** The result is always a prefix of the expansion, and short of the buffer. */
  lemma {:induction false} CutIsPrefix(u: Id, i: nat)
    requires i <= 1998
    ensures Cut(u, i) <= Expand(u) && i + |Cut(u, i)| <= 1998
    decreases |u|
  {
    if u != "" && i <= 1996 {
      var w, rest := Writes(u), u[Reads(u)..];
      CutIsPrefix(rest, i + |w|);
    }
  }

  predicate EndsWide(u: Id) { u != "" && u[|u| - 1] in {':', ';'} }

  /** Exactly when nothing is lost to the buffer. */
  lemma {:induction false} CutIsWholeIff(u: Id, i: nat)
    requires i <= 1996
    ensures Cut(u, i) == Expand(u) <==>
            i + |Expand(u)| <= 1997 || (i + |Expand(u)| == 1998 && EndsWide(u))
    decreases |u|
  {
    if u != "" {
      var w, rest := Writes(u), u[Reads(u)..];
      var j := i + |w|;
      assert Cut(u, i) == w + Cut(rest, j) && Expand(u) == w + Expand(rest);
      assert Cut(u, i) == Expand(u) <==> Cut(rest, j) == Expand(rest) by {
        assert Cut(u, i)[|w|..] == Cut(rest, j) && Expand(u)[|w|..] == Expand(rest);
      }
      if rest == "" {
        LastStep(u);
      } else {
        assert EndsWide(u) <==> EndsWide(rest);
        assert |Expand(rest)| >= 1;
        if j <= 1996 { CutIsWholeIff(rest, j); }
      }
    }
  }

  lemma LastStep(u: Id)
    requires u != "" && Reads(u) == |u|
    ensures |Writes(u)| == 2 <==> EndsWide(u)
    ensures Expand(u) == Writes(u)
  {
    assert Expand(u[Reads(u)..]) == "";
  }

  // ---- The transcription the URN form comes from (RFC 3151) ---------------

  function Code(c: char): (s: Id)
  {
    match c
    case ' ' => "+"
    case '+' => "%2B"
    case ':' => "%3A"
    case '/' => "%2F"
    case ';' => "%3B"
    case '\'' => "%27"
    case '?' => "%3F"
    case '#' => "%23"
    case '%' => "%25"
    case _ => [c]
  }

  /** Section 2 of RFC 3151: a public identifier as a URN body. */
  function Wrap(p: Id): (s: Id)
  {
    if p == "" then ""
    else if |p| >= 2 && p[0] == '/' && p[1] == '/' then ":" + Wrap(p[2..])
    else if |p| >= 2 && p[0] == ':' && p[1] == ':' then ";" + Wrap(p[2..])
    else Code(p[0]) + Wrap(p[1..])
  }

  lemma ExpandStep(head: Id, tail: Id)
    requires head != "" && Reads(head + tail) == |head|
    ensures Expand(head + tail) == Writes(head + tail) + Expand(tail)
  {
    assert (head + tail)[|head|..] == tail;
  }

  lemma {:induction false} ExpandInvertsWrap(p: Id)
    ensures Expand(Wrap(p)) == p
  {
    if p != "" {
      if |p| >= 2 && p[0] == '/' && p[1] == '/' {
        ExpandInvertsWrap(p[2..]);
        ExpandStep(":", Wrap(p[2..]));
        assert p == "//" + p[2..];
      } else if |p| >= 2 && p[0] == ':' && p[1] == ':' {
        ExpandInvertsWrap(p[2..]);
        ExpandStep(";", Wrap(p[2..]));
        assert p == "::" + p[2..];
      } else {
        var head, tail := Code(p[0]), Wrap(p[1..]);
        ExpandInvertsWrap(p[1..]);
        CodeReads(p[0], tail);
        ExpandStep(head, tail);
        assert p == [p[0]] + p[1..];
      }
    }
  }

  lemma CodeReads(c: char, tail: Id)
    ensures Reads(Code(c) + tail) == |Code(c)| && Writes(Code(c) + tail) == [c]
  {
    var s := Code(c) + tail;
    assert s[0] == Code(c)[0];
    if |Code(c)| == 3 {
      assert s[1] == Code(c)[1] && s[2] == Code(c)[2];
    }
  }

  /** Unwrapping undoes wrapping, unless the identifier overruns the buffer. */
  lemma UnwrapInvertsWrap(p: Id)
    ensures IsUrn(URN + Wrap(p))
    ensures Unwrapped(URN + Wrap(p)) == p <==>
            |p| <= 1997 || (|p| == 1998 && EndsWide(Wrap(p)))
    ensures Unwrapped(URN + Wrap(p)) <= p
  {
    assert (URN + Wrap(p))[..13] == URN && (URN + Wrap(p))[13..] == Wrap(p);
    ExpandInvertsWrap(p);
    CutIsWholeIff(Wrap(p), 0);
    CutIsPrefix(Wrap(p), 0);
  }

  // ---- The weight that falls ----------------------------------------------

  function CharWeight(c: char): nat { if c == ';' then 2 else if c == '/' then 0 else 1 }

  function Weight(s: Id): nat
  {
    if s == "" then 0 else CharWeight(s[0]) + Weight(s[1..])
  }

  lemma {:induction false} WeightAppend(s: Id, t: Id)
    ensures Weight(s + t) == Weight(s) + Weight(t)
  {
    if s == "" {
      assert s + t == t;
    } else {
      assert (s + t)[1..] == s[1..] + t;
      WeightAppend(s[1..], t);
    }
  }

  lemma StepIsLight(u: Id)
    requires u != ""
    ensures Weight(Writes(u)) + Weight(u[Reads(u)..]) <= Weight(u)
  {
    var n := Reads(u);
    WeightAppend(u[..n], u[n..]);
    assert u == u[..n] + u[n..];
    var w := Writes(u);
    WeightAppend(w[..1], w[1..]);
    assert w == w[..1] + w[1..];
    assert Weight(w[..1]) == CharWeight(w[0]);
    if |w| == 2 {
      assert Weight(w[1..]) == CharWeight(w[1]);
      assert u[..n] == [u[0]];
    }
    if n == 3 {
      assert u[..3] == [u[0]] + [u[1]] + [u[2]];
      WeightAppend([u[0]] + [u[1]], [u[2]]);
      WeightAppend([u[0]], [u[1]]);
    } else {
      assert u[..n] == [u[0]];
    }
  }

  lemma {:induction false} CutIsLight(u: Id, i: nat)
    ensures Weight(Cut(u, i)) <= Weight(u)
    decreases |u|
  {
    if u != "" && i <= 1996 {
      StepIsLight(u);
      CutIsLight(u[Reads(u)..], i + |Writes(u)|);
      WeightAppend(Writes(u), Cut(u[Reads(u)..], i + |Writes(u)|));
    }
  }

  /** Unwrapping may lengthen an identifier, but sheds the prefix's weight. */
  lemma UnwrapIsLighter(urn: Id)
    requires IsUrn(urn)
    ensures Weight(Unwrapped(urn)) + 13 <= Weight(urn)
  {
    UrnIsPlain(urn);
    PrefixWeight(urn, 13);
    CutIsLight(urn[13..], 0);
  }

  lemma UrnIsPlain(urn: Id)
    requires IsUrn(urn)
    ensures forall k :: 0 <= k < 13 ==> urn[k] != ';' && urn[k] != '/'
  {
    forall k | 0 <= k < 13 ensures urn[k] != ';' && urn[k] != '/' {
      assert urn[k] == urn[..13][k] == URN[k];
    }
  }

  lemma PrefixWeight(s: Id, n: nat)
    requires n <= |s|
    requires forall k :: 0 <= k < n ==> s[k] != ';' && s[k] != '/'
    ensures Weight(s) == n + Weight(s[n..])
  {
    assert s == s[..n] + s[n..];
    WeightAppend(s[..n], s[n..]);
    PlainWeight(s[..n]);
  }

  lemma {:induction false} PlainWeight(s: Id)
    requires forall k :: 0 <= k < |s| ==> s[k] != ';' && s[k] != '/'
    ensures Weight(s) == |s|
  {
    if s != "" { PlainWeight(s[1..]); }
  }

  // ---- Normalization --------------------------------------------------------

  predicate Blank(c: char) { c == ' ' || c == '\t' || c == '\n' || c == '\r' }

  /** Section 6.2 of the OASIS draft: single inner spaces, none at the ends. */
  predicate IsNormal(s: Id)
  {
    s != "" && !Blank(s[0]) && !Blank(s[|s| - 1]) && SingleSpaced(s)
  }

  predicate SingleSpaced(s: Id)
  {
    && (forall k :: 0 <= k < |s| ==> Blank(s[k]) ==> s[k] == ' ')
    && (forall k :: 0 < k < |s| ==> !(Blank(s[k - 1]) && Blank(s[k])))
  }

  predicate IsWord(w: Id)
  {
    w != "" && forall k :: 0 <= k < |w| ==> !Blank(w[k])
  }

  /** The blank-separated words of `s`. */
  function Words(s: Id): (ws: seq<Id>)
    ensures forall k :: 0 <= k < |ws| ==> IsWord(ws[k])
    ensures s != "" && !Blank(s[|s| - 1]) ==> ws != []
  {
    if s == "" then []
    else
      var init, c := s[..|s| - 1], s[|s| - 1];
      var ws := Words(init);
      if Blank(c) then ws
      else if init == "" || Blank(init[|init| - 1]) then ws + [[c]]
      else ws[..|ws| - 1] + [ws[|ws| - 1] + [c]]
  }

  function Join(ws: seq<Id>): Id
  {
    if ws == [] then ""
    else if |ws| == 1 then ws[0]
    else Join(ws[..|ws| - 1]) + " " + ws[|ws| - 1]
  }

  function Normal(s: Id): Id { Join(Words(s)) }

  predicate EndsBlank(s: Id) { s != "" && Blank(s[|s| - 1]) }

  function Gap(s: Id): Id { if EndsBlank(s) && Normal(s) != "" then " " else "" }

  lemma JoinExtend(ws: seq<Id>, w: Id)
    ensures Join(ws + [w]) == if ws == [] then w else Join(ws) + " " + w
  {
    assert (ws + [w])[..|ws|] == ws;
  }

  lemma JoinLengthen(init: seq<Id>, w: Id, c: char)
    ensures Join(init + [w + [c]]) == Join(init + [w]) + [c]
  {
    JoinExtend(init, w + [c]);
    JoinExtend(init, w);
    if init != [] {
      assert Join(init) + " " + (w + [c]) == (Join(init) + " " + w) + [c];
    }
  }

  lemma JoinNonEmpty(ws: seq<Id>)
    requires forall k :: 0 <= k < |ws| ==> IsWord(ws[k])
    ensures Join(ws) == "" <==> ws == []
  {
    if |ws| > 1 {
      assert Join(ws) == Join(ws[..|ws| - 1]) + " " + ws[|ws| - 1];
    }
  }

  /** One step of the copying loop, on the characters read so far. */
  lemma NormalStep(s: Id, c: char)
    ensures Blank(c) ==> Normal(s + [c]) == Normal(s)
    ensures !Blank(c) ==> Normal(s + [c]) == Normal(s) + Gap(s) + [c]
  {
    assert (s + [c])[..|s|] == s;
    if !Blank(c) {
      JoinNonEmpty(Words(s));
      if s == "" || Blank(s[|s| - 1]) {
        JoinExtend(Words(s), [c]);
      } else {
        var ws := Words(s);
        JoinLengthen(ws[..|ws| - 1], ws[|ws| - 1], c);
        assert ws == ws[..|ws| - 1] + [ws[|ws| - 1]];
      }
    }
  }

  /** The first pass: is the identifier normal as it stands? */
  method CheckNormal(s: Id) returns (normal: bool)
    ensures normal == IsNormal(s)
  {
    var ok, white := true, true;
    var k := 0;
    while k < |s| && ok
      invariant k <= |s|
      invariant ok ==> SingleSpaced(s[..k]) && (k > 0 ==> !Blank(s[0]))
      invariant ok ==> (white <==> k == 0 || Blank(s[k - 1]))
      invariant !ok ==> !IsNormal(s)
    {
      if !Blank(s[k]) {
        white := false;
      } else if s[k] == ' ' && !white {
        white := true;
      } else {
        ok := false;
      }
      k := k + 1;
    }
    assert ok ==> s[..k] == s;
    normal := ok && !white;
  }

  method NormalizePublic(p: Option<Id>) returns (r: Option<Id>)
    ensures r == if p.None? || IsNormal(p.value) then None else Some(Normal(p.value))
  {
    if p.None? { return None; }
    var s := p.value;
    var normal := CheckNormal(s);
    if normal { return None; }
    var ret, white := "", false;
    var k := 0;
    while k < |s|
      invariant k <= |s|
      invariant ret == Normal(s[..k])
      invariant white <==> EndsBlank(s[..k]) && ret != ""
    {
      NormalStep(s[..k], s[k]);
      assert s[..k + 1] == s[..k] + [s[k]];
      if Blank(s[k]) {
        if ret != "" { white := true; }
      } else {
        if white { ret := ret + " "; white := false; }
        ret := ret + [s[k]];
      }
      k := k + 1;
    }
    assert s[..k] == s;
    r := Some(ret);
  }

  lemma AppendKeepsNormal(t: Id, gap: Id, c: char)
    requires t == "" || IsNormal(t)
    requires gap == "" || (gap == " " && t != "")
    requires !Blank(c)
    ensures IsNormal(t + gap + [c])
  {
    var r := t + gap + [c];
    assert t != "" ==> r[0] == t[0];
    assert forall k :: 0 <= k < |r| ==>
      r[k] == if k < |t| then t[k] else if k < |t| + |gap| then ' ' else c;
  }

  /** What `Normal` yields: a normal form, or nothing at all. */
  lemma {:induction false} NormalIsNormal(s: Id)
    ensures Normal(s) == "" || IsNormal(Normal(s))
  {
    if s != "" {
      var init, c := s[..|s| - 1], s[|s| - 1];
      NormalIsNormal(init);
      NormalStep(init, c);
      assert s == init + [c];
      if !Blank(c) { AppendKeepsNormal(Normal(init), Gap(init), c); }
    }
  }

  /** Up to its last blank, single-spaced text is left as it is. */
  lemma {:induction false} NormalKeeps(s: Id)
    requires s != "" ==> !Blank(s[0])
    requires SingleSpaced(s)
    ensures Normal(s) == if EndsBlank(s) then s[..|s| - 1] else s
  {
    if s != "" {
      var init, c := s[..|s| - 1], s[|s| - 1];
      InitSingleSpaced(s);
      NormalKeeps(init);
      NormalStep(init, c);
      assert s == init + [c];
      if EndsBlank(init) && !Blank(c) {
        assert init == init[..|init| - 1] + " ";
      }
    }
  }

  lemma InitSingleSpaced(s: Id)
    requires s != "" && !Blank(s[0]) && SingleSpaced(s)
    ensures var init, c := s[..|s| - 1], s[|s| - 1];
      && SingleSpaced(init) && (init != "" ==> init[0] == s[0])
      && (EndsBlank(init) ==> |init| >= 2 && init[|init| - 1] == ' ' && !Blank(c))
      && (Blank(c) ==> init != "" && !EndsBlank(init))
  {
    var init := s[..|s| - 1];
    assert forall k :: 0 <= k < |init| ==> init[k] == s[k];
  }

  /** Normalizing a normal identifier changes nothing, so `NULL` means "as is". */
  lemma NormalIdempotent(s: Id)
    ensures IsNormal(s) ==> Normal(s) == s
    ensures Normal(Normal(s)) == Normal(s)
  {
    if IsNormal(s) { NormalKeeps(s); }
    NormalIsNormal(s);
    if Normal(s) != "" { NormalKeeps(Normal(s)); }
  }

  lemma WordStarts(s: Id, c: char)
    requires s == "" || EndsBlank(s)
    requires !Blank(c)
    ensures Words(s + [c]) == Words(s) + [[c]]
  {
    assert (s + [c])[..|s|] == s;
  }

  lemma WordGoesOn(s: Id, ws: seq<Id>, w: Id, c: char)
    requires s != "" && !EndsBlank(s) && Words(s) == ws + [w]
    requires !Blank(c)
    ensures Words(s + [c]) == ws + [w + [c]]
  {
    assert (s + [c])[..|s|] == s;
    assert (ws + [w])[..|ws|] == ws;
  }

  lemma WordsSkipBlank(s: Id, c: char)
    requires Blank(c)
    ensures Words(s + [c]) == Words(s)
  {
    assert (s + [c])[..|s|] == s;
  }

  /** The same character after two texts with the same words gives the same words. */
  lemma WordsStep(s: Id, t: Id, c: char)
    requires Words(s) == Words(t) && !Blank(c)
    requires (s == "" || EndsBlank(s)) <==> (t == "" || EndsBlank(t))
    ensures Words(s + [c]) == Words(t + [c])
  {
    if s == "" || EndsBlank(s) {
      WordStarts(s, c);
      WordStarts(t, c);
    } else {
      var ws := Words(s);
      assert ws == ws[..|ws| - 1] + [ws[|ws| - 1]];
      WordGoesOn(s, ws[..|ws| - 1], ws[|ws| - 1], c);
      WordGoesOn(t, ws[..|ws| - 1], ws[|ws| - 1], c);
    }
  }

  /** Normalization keeps the words and their order. */
  lemma {:induction false} NormalKeepsWords(s: Id)
    ensures Words(Normal(s)) == Words(s)
  {
    if s != "" {
      var init, c := s[..|s| - 1], s[|s| - 1];
      assert s == init + [c];
      NormalKeepsWords(init);
      NormalStep(init, c);
      if Blank(c) {
        WordsSkipBlank(init, c);
      } else {
        NormalEnd(init);
        if Gap(init) != "" { WordsSkipBlank(Normal(init), ' '); }
        WordsStep(Normal(init) + Gap(init), init, c);
      }
    }
  }

  /** With the gap behind it, a normalized text invites a new word just when the text does. */
  lemma NormalEnd(s: Id)
    ensures var n := Normal(s) + Gap(s);
      (n == "" || EndsBlank(n)) <==> (s == "" || EndsBlank(s))
    ensures Gap(s) == "" ==> Normal(s) + Gap(s) == Normal(s)
    ensures Gap(s) != "" ==> Normal(s) + Gap(s) == Normal(s) + [' ']
  {
    NormalIsNormal(s);
    JoinNonEmpty(Words(s));
  }

  /** The space that a further word would need. */
  function GapWeight(s: Id): nat { if EndsBlank(s) && Normal(s) != "" then 1 else 0 }

  lemma BlankWeight(c: char)
    ensures Weight([c]) == CharWeight(c)
  {
    assert [c][1..] == "";
  }

  lemma NormalStepWeight(s: Id, c: char)
    requires !Blank(c)
    ensures Weight(Normal(s + [c])) == Weight(Normal(s)) + GapWeight(s) + CharWeight(c)
  {
    NormalStep(s, c);
    var n, gap := Normal(s), Gap(s);
    WeightAppend(n + gap, [c]);
    WeightAppend(n, gap);
    BlankWeight(c);
    BlankWeight(' ');
    assert gap == [' '] || gap == [];
  }

  lemma {:induction false} NormalIsLight(s: Id)
    ensures Weight(Normal(s)) + GapWeight(s) <= Weight(s)
  {
    if s != "" {
      var init, c := s[..|s| - 1], s[|s| - 1];
      assert s == init + [c];
      NormalIsLight(init);
      WeightAppend(init, [c]);
      BlankWeight(c);
      if Blank(c) {
        NormalStep(init, c);
      } else {
        NormalStepWeight(init, c);
      }
    }
  }

  // ---- Resolution -------------------------------------------------------------

  /** What one catalog of the list answers; entries that are no catalog, and
      catalogs that cannot be fetched, always answer `Missing`. */
  datatype Answer = Found(uri: Id) | Missing | TooDeep

  type Lookup = (Option<Id>, Option<Id>) -> Answer

  /** The walk along the catalog list. */
  function FirstHit(catalogs: seq<Lookup>, pub: Option<Id>, sys: Option<Id>): Option<Id>
  {
    if catalogs == [] then None
    else match catalogs[0](pub, sys)
      case Found(uri) => Some(uri)
      case TooDeep => None
      case Missing => FirstHit(catalogs[1..], pub, sys)
  }

  /** Catalog `k` is the first of the list that does not miss. */
  predicate FirstToAnswer(catalogs: seq<Lookup>, pub: Option<Id>, sys: Option<Id>, k: nat)
  {
    && k < |catalogs| && !catalogs[k](pub, sys).Missing?
    && forall i :: 0 <= i < k ==> catalogs[i](pub, sys).Missing?
  }

  /** The catalogs are asked in order, and the first that does not miss decides. */
  lemma {:induction false} FirstHitDecides(catalogs: seq<Lookup>, pub: Option<Id>, sys: Option<Id>, k: nat)
    ensures FirstToAnswer(catalogs, pub, sys, k) ==>
      var answer := catalogs[k](pub, sys);
      FirstHit(catalogs, pub, sys) == if answer.Found? then Some(answer.uri) else None
    ensures (forall i :: 0 <= i < |catalogs| ==> catalogs[i](pub, sys).Missing?) ==> FirstHit(catalogs, pub, sys) == None
  {
    if catalogs != [] && catalogs[0](pub, sys).Missing? {
      var rest := catalogs[1..];
      assert forall i :: 0 <= i < |rest| ==> rest[i] == catalogs[i + 1];
      FirstHitDecides(rest, pub, sys, if k > 0 then k - 1 else 0);
    }
  }

  function Burden(id: Option<Id>): nat { if id.None? then 0 else Weight(id.value) }

  /** A public identifier as resolution uses it. */
  function Public(p: Option<Id>): (q: Option<Id>)
    ensures Burden(q) <= Burden(p)
  {
    if p.None? then None
    else
      NormalIsLight(p.value);
      if Normal(p.value) == "" then None else Some(Normal(p.value))
  }

  /** Normalize and unwrap until no URN is left. */
  function SettledPublic(p: Option<Id>): (q: Option<Id>)
    ensures q.Some? ==> IsNormal(q.value) && !IsUrn(q.value)
    decreases Burden(p)
  {
    var n := Public(p);
    if n.Some? && IsUrn(n.value) then
      UnwrapIsLighter(n.value);
      SettledPublic(Some(Unwrapped(n.value)))
    else
      if n.Some? then NormalIsNormal(p.value); n else n
  }

  /** Unwrap a system identifier, until it says no more than the public one. */
  function SettledSystem(s: Id, pub: Id): (q: Option<Id>)
    ensures q.Some? ==> !IsUrn(q.value)
    decreases Weight(s)
  {
    if !IsUrn(s) then Some(s)
    else if Unwrapped(s) == pub then None
    else
      UnwrapIsLighter(s);
      SettledSystem(Unwrapped(s), pub)
  }

  /** The identifiers that are finally looked up. */
  function Settled(pub: Option<Id>, sys: Option<Id>): (r: (Option<Id>, Option<Id>))
    ensures r.0.Some? ==> IsNormal(r.0.value) && !IsUrn(r.0.value)
    ensures r.1.Some? ==> !IsUrn(r.1.value)
  {
    var p := SettledPublic(pub);
    if sys.None? || !IsUrn(sys.value) then (p, sys)
    else if p.None? then (SettledPublic(Some(Unwrapped(sys.value))), None)
    else (p, SettledSystem(sys.value, p.value))
  }

  lemma PublicIsStable(p: Option<Id>)
    ensures Public(Public(p)) == Public(p)
    ensures SettledPublic(Public(p)) == SettledPublic(p)
  {
    if p.Some? { NormalIdempotent(p.value); }
  }

  /** What the recursive calls are given settles as the arguments do. */
  lemma SettleStep(pub: Option<Id>, sys: Option<Id>)
    ensures var p := Public(pub);
      if p.Some? && IsUrn(p.value) then
        Settled(pub, sys) == Settled(Some(Unwrapped(p.value)), sys)
      else if sys.Some? && IsUrn(sys.value) then
        var u := Some(Unwrapped(sys.value));
        Settled(pub, sys) == if p.None? then Settled(u, None) else if p == u then Settled(p, None) else Settled(p, u)
      else Settled(pub, sys) == (p, sys)
  {
    PublicIsStable(pub);
  }

  lemma PublicIs(pub: Option<Id>, normid: Option<Id>)
    requires normid == if pub.None? || IsNormal(pub.value) then None else Some(Normal(pub.value))
    ensures Public(pub) == if normid.None? then pub else if normid.value != "" then normid else None
  {
    if pub.Some? { NormalIdempotent(pub.value); }
  }

  method ListResolve(catalogs: seq<Lookup>, pub: Option<Id>, sys: Option<Id>) returns (r: Option<Id>)
    ensures r == if pub.None? && sys.None? then None
                 else FirstHit(catalogs, Settled(pub, sys).0, Settled(pub, sys).1)
    decreases Burden(pub) + Burden(sys)
  {
    if catalogs == [] { return None; }
    if pub.None? && sys.None? { return None; }
    var p := pub;
    var normid := NormalizePublic(pub);
    if normid.Some? { p := if normid.value != "" then normid else None; }
    PublicIs(pub, normid);
    SettleStep(pub, sys);
    if p.Some? && IsUrn(p.value) {
      UnwrapIsLighter(p.value);
      var urnid := UnwrapUrn(p.value);
      r := ListResolve(catalogs, urnid, sys);
    } else if sys.Some? && IsUrn(sys.value) {
      UnwrapIsLighter(sys.value);
      var urnid := UnwrapUrn(sys.value);
      if p.None? {
        r := ListResolve(catalogs, urnid, None);
      } else if p == urnid {
        r := ListResolve(catalogs, p, None);
      } else {
        r := ListResolve(catalogs, p, urnid);
      }
    } else {
      r := WalkList(catalogs, p, sys);
    }
  }

  method WalkList(catalogs: seq<Lookup>, pub: Option<Id>, sys: Option<Id>) returns (r: Option<Id>)
    ensures r == FirstHit(catalogs, pub, sys)
  {
    var rest := catalogs;
    while rest != []
      invariant FirstHit(catalogs, pub, sys) == FirstHit(rest, pub, sys)
      decreases |rest|
    {
      match rest[0](pub, sys)
      case Found(uri) => return Some(uri);
      case TooDeep => return None;
      case Missing => rest := rest[1..];
    }
    r := None;
  }

  /** Looking up the settled identifiers gives what the originals give. */
  lemma SettledIsFinal(pub: Option<Id>, sys: Option<Id>)
    ensures Settled(Settled(pub, sys).0, Settled(pub, sys).1) == Settled(pub, sys)
  {
    SettledPublicIsFinal(pub);
    if sys.Some? && IsUrn(sys.value) {
      SettledPublicIsFinal(Some(Unwrapped(sys.value)));
    }
  }

  lemma SettledPublicIsFinal(p: Option<Id>)
    ensures SettledPublic(SettledPublic(p)) == SettledPublic(p)
  {
    var q := SettledPublic(p);
    if q.Some? { NormalIdempotent(q.value); }
  }

  /** A URN in either slot resolves as the identifier it unwraps to. */
  lemma UrnResolvesAsPublic(urn: Id, sys: Option<Id>)
    requires IsUrn(urn)
    ensures IsNormal(urn) ==> Settled(Some(urn), sys) == Settled(Some(Unwrapped(urn)), sys)
    ensures Settled(None, Some(urn)) == Settled(Some(Unwrapped(urn)), None)
  {
    NormalIdempotent(urn);
    assert IsNormal(urn) ==> SettledPublic(Some(urn)) == SettledPublic(Some(Unwrapped(urn)));
  }
}
