/**
  Encoding text with HTML entities into a bounded buffer, parsing the references back, and the
  proof that nothing is lost on the way.
 */
module HtmlEntities {
  import opened Bits
  import opened Options

  type Bytes = seq<Byte>

  const AMP: Byte := 38
  const HASH: Byte := 35
  const SEMI: Byte := 59
  const LT: Byte := 60
  const GT: Byte := 62

  /** An entry of the entity table. */
  datatype Entity = Entity(value: nat, name: Bytes)

  type EntityTable = seq<Entity>

  predicate NameStart(b: Byte) { 97 <= b <= 122 || 65 <= b <= 90 || b == 95 || b == 58 }

  predicate NameByte(b: Byte) { NameStart(b) || 48 <= b <= 57 || b == 45 || b == 46 }

  /** A table of characters with well-formed names, no name twice. */
  ghost predicate TableOk(table: EntityTable) {
    && (forall i :: 0 <= i < |table| ==>
          && IsChar(table[i].value)
          && table[i].name != [] && NameStart(table[i].name[0])
          && forall k :: 0 <= k < |table[i].name| ==> NameByte(table[i].name[k]))
    && forall i, j :: 0 <= i < j < |table| ==> table[i].name != table[j].name
  }

  /** Scan by value: stops at the first entry whose value is not smaller. */
  function ByValue(table: EntityTable, c: nat): (r: Option<Entity>)
    ensures r.Some? ==> r.value in table && r.value.value == c
  {
    if table == [] then None
    else if table[0].value >= c then (if table[0].value > c then None else Some(table[0]))
    else ByValue(table[1..], c)
  }

  function ByName(table: EntityTable, name: Bytes): (r: Option<Entity>)
    ensures r.Some? ==> r.value in table && r.value.name == name
    ensures r.None? ==> forall e :: e in table ==> e.name != name
  {
    if table == [] then None
    else if table[0].name == name then Some(table[0])
    else ByName(table[1..], name)
  }

  lemma NameFindsEntity(table: EntityTable, e: Entity)
    requires TableOk(table) && e in table
    ensures ByName(table, e.name) == Some(e)
  {
    var f := ByName(table, e.name).value;
    var i :| 0 <= i < |table| && table[i] == e;
    var j :| 0 <= j < |table| && table[j] == f;
  }

  // ----- UTF-8 -----

  /** Characters XML allows. */
  predicate IsChar(c: nat) {
    c == 9 || c == 10 || c == 13 || 0x20 <= c <= 0xD7FF || 0xE000 <= c <= 0xFFFD || 0x1_0000 <= c <= 0x10_FFFF
  }

  function Utf8(c: nat): (r: Bytes)
    requires c < 0x11_0000
    ensures 0 < |r| <= 4
  {
    if c < 0x80 then [c]
    else if c < 0x800 then [0xC0 + c / 64, 0x80 + c % 64]
    else if c < 0x1_0000 then [0xE0 + c / 4096, 0x80 + c / 64 % 64, 0x80 + c % 64]
    else [0xF0 + c / 0x4_0000, 0x80 + c / 4096 % 64, 0x80 + c / 64 % 64, 0x80 + c % 64]
  }

  /** One character at the start of the input: bad, cut short, or a value and its length. */
  datatype Step = Bad | Short | Char(c: nat, len: nat)

  function Trailing(d: Byte): (n: int)
    ensures -1 <= n <= 3
  {
    if d < 0x80 then 0 else if d < 0xC0 then -1 else if d < 0xE0 then 1 else if d < 0xF0 then 2 else if d < 0xF8 then 3 else -1
  }

  function LeadBits(d: Byte): nat {
    if d < 0x80 then d else if d < 0xE0 then d % 32 else if d < 0xF0 then d % 16 else d % 8
  }

  /** Accumulates `n` continuation bytes. */
  function Continue(c: nat, s: Bytes, n: nat): (r: Option<nat>)
    requires n <= |s|
    decreases n
  {
    if n == 0 then Some(c)
    else if !(0x80 <= s[0] < 0xC0) then None
    else Continue(c * 64 + s[0] % 64, s[1..], n - 1)
  }

  function DecodeStep(s: Bytes): (r: Step)
    requires s != []
    ensures r.Char? ==> 0 < r.len <= |s|
  {
    var n := Trailing(s[0]);
    if n < 0 then Bad
    else if |s| - 1 < n then Short
    else
      match Continue(LeadBits(s[0]), s[1..], n)
      case None => Bad
      case Some(c) => Char(c, n + 1)
  }

  lemma OneMore(c: nat, s: Bytes, n: nat, d: nat)
    requires 0 < n <= |s| && d < 64 && s[0] == 0x80 + d
    ensures Continue(c, s, n) == Continue(c * 64 + d, s[1..], n - 1)
  {
  }

  lemma Decode2(c: nat, s: Bytes)
    requires 0x80 <= c < 0x800 && |s| >= 2 && s[..2] == Utf8(c)
    ensures DecodeStep(s) == Char(c, 2)
  {
    assert s[0] == Utf8(c)[0] && s[1] == Utf8(c)[1];
    OneMore(c / 64, s[1..], 1, c % 64);
  }

  lemma Decode3(c: nat, s: Bytes)
    requires 0x800 <= c < 0x1_0000 && |s| >= 3 && s[..3] == Utf8(c)
    ensures DecodeStep(s) == Char(c, 3)
  {
    assert s[0] == Utf8(c)[0] && s[1] == Utf8(c)[1] && s[2] == Utf8(c)[2];
    OneMore(c / 4096, s[1..], 2, c / 64 % 64);
    assert c / 4096 * 64 + c / 64 % 64 == c / 64;
    OneMore(c / 64, s[1..][1..], 1, c % 64);
  }

  lemma Decode4(c: nat, s: Bytes)
    requires 0x1_0000 <= c < 0x11_0000 && |s| >= 4 && s[..4] == Utf8(c)
    ensures DecodeStep(s) == Char(c, 4)
  {
    assert s[0] == Utf8(c)[0] && s[1] == Utf8(c)[1] && s[2] == Utf8(c)[2] && s[3] == Utf8(c)[3];
    Digits4(c / 0x4_0000, c / 4096 % 64, c / 64 % 64, c % 64, s);
    SixBits(c);
  }

  lemma Digits4(a: nat, b: nat, d: nat, e: nat, s: Bytes)
    requires a < 8 && b < 64 && d < 64 && e < 64 && |s| >= 4
    requires s[0] == 0xF0 + a && s[1] == 0x80 + b && s[2] == 0x80 + d && s[3] == 0x80 + e
    ensures DecodeStep(s) == Char(((a * 64 + b) * 64 + d) * 64 + e, 4)
  {
    OneMore(a, s[1..], 3, b);
    OneMore(a * 64 + b, s[1..][1..], 2, d);
    OneMore((a * 64 + b) * 64 + d, s[1..][1..][1..], 1, e);
  }

  lemma SixBits(c: nat)
    ensures ((c / 0x4_0000 * 64 + c / 4096 % 64) * 64 + c / 64 % 64) * 64 + c % 64 == c
  {
    assert c / 0x4_0000 * 64 + c / 4096 % 64 == c / 4096;
    assert c / 4096 * 64 + c / 64 % 64 == c / 64;
  }

  /** The decoder reads back every encoded character. */
  lemma DecodeUtf8(c: nat, rest: Bytes)
    requires c < 0x11_0000
    ensures DecodeStep(Utf8(c) + rest) == Char(c, |Utf8(c)|)
  {
    var s := Utf8(c) + rest;
    assert s[..|Utf8(c)|] == Utf8(c);
    if c < 0x80 {
      assert s[0] == c;
    } else if c < 0x800 {
      Decode2(c, s);
    } else if c < 0x1_0000 {
      Decode3(c, s);
    } else {
      Decode4(c, s);
    }
  }

  // ----- encoding -----

  function Decimal(n: nat): (r: Bytes)
    ensures r != [] && forall i :: 0 <= i < |r| ==> 48 <= r[i] <= 57
  {
    if n < 10 then [48 + n] else Decimal(n / 10) + [48 + n % 10]
  }

  /** The encoding of one character: itself, a named entity or a decimal reference. */
  function EncodeChar(table: EntityTable, quote: int, c: nat): (r: Bytes) {
    if c < 0x80 && c != quote && c != AMP && c != LT && c != GT then [c]
    else
      match ByValue(table, c)
      case Some(e) => [AMP] + e.name + [SEMI]
      case None => [AMP, HASH] + Decimal(c) + [SEMI]
  }

  /** The input is a sequence of complete characters. */
  predicate Whole(s: Bytes) {
    s == [] || (DecodeStep(s).Char? && Whole(s[DecodeStep(s).len..]))
  }

  function Encode(table: EntityTable, quote: int, s: Bytes): (r: Bytes)
    requires Whole(s)
  {
    if s == [] then []
    else EncodeChar(table, quote, DecodeStep(s).c) + Encode(table, quote, s[DecodeStep(s).len..])
  }

  lemma {:induction false} WholeAppend(table: EntityTable, quote: int, a: Bytes, b: Bytes)
    requires Whole(a)
    ensures Whole(a + b) <==> Whole(b)
    ensures Whole(b) ==> Encode(table, quote, a + b) == Encode(table, quote, a) + Encode(table, quote, b)
    decreases |a|
  {
    if a == [] {
      assert a + b == b;
    } else {
      DecodePrefix(a, b);
      var n := DecodeStep(a).len;
      assert (a + b)[n..] == a[n..] + b;
      WholeAppend(table, quote, a[n..], b);
    }
  }

  // ----- what encoding is for -----

  /** A byte that means nothing in markup: ASCII, no angle bracket, and not the quotation mark to be hidden. */
  predicate Harmless(b: Byte, quote: int) {
    b < 0x80 && b != 60 && b != 62 && (quote == 34 || quote == 39 ==> b != quote)
  }

  /** The reference that starts at `i` runs over name bytes, digits and '#' to a semicolon at `j`. */
  predicate RunsTo(out: Bytes, i: nat, j: nat) {
    i < j < |out| && out[j] == 59 && forall k :: i < k < j ==> NameByte(out[k]) || out[k] == 35
  }

  /** The text is harmless, and every ampersand in it starts a reference. */
  ghost predicate Escaped(out: Bytes, quote: int) {
    && (forall i :: 0 <= i < |out| ==> Harmless(out[i], quote))
    && forall i :: 0 <= i < |out| && out[i] == 38 ==> exists j :: RunsTo(out, i, j)
  }

  lemma EscapedAppend(a: Bytes, b: Bytes, quote: int)
    requires Escaped(a, quote) && Escaped(b, quote)
    ensures Escaped(a + b, quote)
  {
    var out := a + b;
    forall i | 0 <= i < |out| && out[i] == 38
      ensures exists j :: RunsTo(out, i, j)
    {
      if i < |a| {
        var j :| RunsTo(a, i, j);
        assert RunsTo(out, i, j);
      } else {
        var j :| RunsTo(b, i - |a|, j);
        assert RunsTo(out, i, |a| + j);
      }
    }
  }

  lemma EscapedReference(body: Bytes, quote: int)
    requires forall k :: 0 <= k < |body| ==> NameByte(body[k]) || body[k] == 35
    ensures Escaped([38] + body + [59], quote)
  {
    var out := [38] + body + [59];
    assert RunsTo(out, 0, |out| - 1);
  }

  lemma EscapedChar(table: EntityTable, quote: int, c: nat)
    requires TableOk(table)
    ensures Escaped(EncodeChar(table, quote, c), quote)
  {
    if !(c < 0x80 && c != quote && c != AMP && c != LT && c != GT) {
      match ByValue(table, c)
      case Some(e) =>
        EntryOk(table, e);
        EscapedReference(e.name, quote);
      case None =>
        EscapedReference([35] + Decimal(c), quote);
        assert [38] + ([35] + Decimal(c)) + [59] == EncodeChar(table, quote, c);
    }
  }

  /** No byte of an encoded text can be taken for markup. */
  lemma {:induction false} EncodingIsEscaped(table: EntityTable, quote: int, s: Bytes)
    requires TableOk(table) && Whole(s)
    ensures Escaped(Encode(table, quote, s), quote)
    decreases |s|
  {
    if s != [] {
      var step := DecodeStep(s);
      EscapedChar(table, quote, step.c);
      EncodingIsEscaped(table, quote, s[step.len..]);
      EscapedAppend(EncodeChar(table, quote, step.c), Encode(table, quote, s[step.len..]), quote);
    }
  }

  lemma {:induction false} ContinuePrefix(c: nat, a: Bytes, b: Bytes, n: nat)
    requires n <= |a|
    ensures Continue(c, a + b, n) == Continue(c, a, n)
    decreases n
  {
    if n > 0 {
      assert (a + b)[1..] == a[1..] + b;
      ContinuePrefix(c * 64 + a[0] % 64, a[1..], b, n - 1);
    }
  }

  /** A character that is complete stays the same whatever follows it. */
  lemma DecodePrefix(a: Bytes, b: Bytes)
    requires a != [] && DecodeStep(a).Char?
    ensures DecodeStep(a + b) == DecodeStep(a)
  {
    assert (a + b)[1..] == a[1..] + b;
    ContinuePrefix(LeadBits(a[0]), a[1..], b, Trailing(a[0]));
  }

  predicate NoRoomFor(table: EntityTable, quote: int, step: Step, left: int) {
    step.Char? && |EncodeChar(table, quote, step.c)| > left
  }

  /** The reasons to stop: malformed input, a character cut short, or no room. */
  predicate MustStop(table: EntityTable, quote: int, step: Step, left: int, ret: int) {
    if step.Bad? then ret == -2 else ret == 0 && (step.Short? || NoRoomFor(table, quote, step, left))
  }

  /**
    Encodes as many characters as fit into `room` bytes. Returns 0, or -2 on malformed input.
    What is reported as consumed is a whole number of characters, and the output is exactly
    their encoding; the loop stops only where it must.
   */
  method EncodeEntities(table: EntityTable, input: Bytes, room: nat, quote: int) returns (ret: int, out: Bytes, consumed: nat)
    ensures consumed <= |input| && |out| <= room
    ensures Whole(input[..consumed]) && out == Encode(table, quote, input[..consumed])
    ensures TableOk(table) ==> Escaped(out, quote)
    ensures ret == 0 || ret == -2
    ensures ret == -2 ==> consumed < |input| && DecodeStep(input[consumed..]).Bad?
    ensures ret == 0 && consumed < |input| ==>
              DecodeStep(input[consumed..]).Short? || NoRoomFor(table, quote, DecodeStep(input[consumed..]), room - |out|)
  {
    ret, out, consumed := 0, [], 0;
    var stop := false;
    while consumed < |input| && !stop
      invariant consumed <= |input| && |out| <= room && (ret == 0 || ret == -2)
      invariant Whole(input[..consumed]) && out == Encode(table, quote, input[..consumed])
      invariant ret == -2 ==> stop
      invariant stop ==> consumed < |input| && MustStop(table, quote, DecodeStep(input[consumed..]), room - |out|, ret)
      decreases |input| - consumed, !stop
    {
      var step := DecodeStep(input[consumed..]);
      match step
      case Bad => ret, stop := -2, true;
      case Short => stop := true;
      case Char(c, len) =>
        var e := EncodeChar(table, quote, c);
        if room - |out| < |e| {
          stop := true;
        } else {
          OneChar(table, quote, input, consumed);
          out, consumed := out + e, consumed + len;
        }
    }
    if TableOk(table) { EncodingIsEscaped(table, quote, input[..consumed]); }
  }

  lemma OneChar(table: EntityTable, quote: int, input: Bytes, at: nat)
    requires at < |input| && Whole(input[..at]) && DecodeStep(input[at..]).Char?
    ensures var step := DecodeStep(input[at..]);
            && Whole(input[..at + step.len])
            && Encode(table, quote, input[..at + step.len]) ==
               Encode(table, quote, input[..at]) + EncodeChar(table, quote, step.c)
  {
    var step := DecodeStep(input[at..]);
    CutToChar(input[at..]);
    var one := input[at..][..step.len];
    EncodeOne(table, quote, one);
    WholeAppend(table, quote, input[..at], one);
    assert input[..at + step.len] == input[..at] + one;
  }

  /** The bytes of the first character alone decode to it. */
  lemma CutToChar(s: Bytes)
    requires s != [] && DecodeStep(s).Char?
    ensures DecodeStep(s).len <= |s| && DecodeStep(s[..DecodeStep(s).len]) == DecodeStep(s)
  {
    var n := DecodeStep(s).len;
    var one := s[..n];
    ContinuePrefix(LeadBits(one[0]), one[1..], s[n..], n - 1);
    assert s[1..] == one[1..] + s[n..];
  }

  lemma EncodeOne(table: EntityTable, quote: int, one: Bytes)
    requires one != [] && DecodeStep(one).Char? && DecodeStep(one).len == |one|
    ensures Whole(one) && Encode(table, quote, one) == EncodeChar(table, quote, DecodeStep(one).c)
  {
    assert one[DecodeStep(one).len..] == [];
  }

  /** Resuming where a bounded call stopped continues the full encoding. */
  lemma ResumedEncoding(table: EntityTable, quote: int, input: Bytes, k: nat)
    requires k <= |input| && Whole(input) && Whole(input[..k])
    ensures Whole(input[k..])
    ensures Encode(table, quote, input) == Encode(table, quote, input[..k]) + Encode(table, quote, input[k..])
  {
    WholeAppend(table, quote, input[..k], input[k..]);
    assert input == input[..k] + input[k..];
  }

  lemma PieceFits(table: EntityTable, quote: int, input: Bytes, k: nat, n: nat)
    requires k + n <= |input| && Whole(input[..k]) && Whole(input[k..][..n])
    ensures Whole(input[..k + n])
    ensures Encode(table, quote, input[..k + n]) == Encode(table, quote, input[..k]) + Encode(table, quote, input[k..][..n])
  {
    SplitAt(input, k, n);
    WholeJoined(table, quote, input[..k], input[k..][..n], input[..k + n]);
  }

  lemma SplitAt(input: Bytes, k: nat, n: nat)
    requires k + n <= |input|
    ensures input[..k + n] == input[..k] + input[k..][..n]
  {
  }

  lemma WholeJoined(table: EntityTable, quote: int, a: Bytes, b: Bytes, all: Bytes)
    requires Whole(a) && Whole(b) && all == a + b
    ensures Whole(all) && Encode(table, quote, all) == Encode(table, quote, a) + Encode(table, quote, b)
  {
    WholeAppend(table, quote, a, b);
  }

  /** One call after the other, each with what the last one left and with its own room: together they encode what they consume. */
  method EncodeInPieces(table: EntityTable, input: Bytes, rooms: seq<nat>, quote: int) returns (out: Bytes, consumed: nat)
    ensures consumed <= |input| && Whole(input[..consumed]) && out == Encode(table, quote, input[..consumed])
    ensures consumed == |input| ==> Whole(input) && out == Encode(table, quote, input)
    ensures TableOk(table) ==> Escaped(out, quote)
  {
    out, consumed := [], 0;
    for i := 0 to |rooms|
      invariant consumed <= |input| && Whole(input[..consumed]) && out == Encode(table, quote, input[..consumed])
    {
      var ret, more, n := EncodeEntities(table, input[consumed..], rooms[i], quote);
      PieceFits(table, quote, input, consumed, n);
      out, consumed := out + more, consumed + n;
    }
    assert consumed == |input| ==> input[..consumed] == input;
    if TableOk(table) { EncodingIsEscaped(table, quote, input[..consumed]); }
  }

  // ----- parsing references -----

  function HexDigit(b: Byte): (d: int) {
    if 48 <= b <= 57 then b - 48 else if 97 <= b <= 102 then b - 87 else if 65 <= b <= 70 then b - 55 else -1
  }

  function DecDigit(b: Byte): (d: int) {
    if 48 <= b <= 57 then b - 48 else -1
  }

  /** The value of a character reference's digits, capped once it is too large, and what follows the reference. */
  function RefDigits(val: nat, s: Bytes, hex: bool): (r: (nat, Bytes))
    ensures |r.1| <= |s|
    decreases |s|
  {
    if s == [] then (val, s)
    else if s[0] == SEMI then (val, s[1..])
    else
      var d := if hex then HexDigit(s[0]) else DecDigit(s[0]);
      if d < 0 then (val, s)
      else RefDigits(if val < 0x11_0000 then val * (if hex then 16 else 10) + d else val, s[1..], hex)
  }

  /** Number of name bytes at the start. */
  function NameLen(s: Bytes): (n: nat)
    ensures n <= |s| && forall k :: 0 <= k < n ==> NameByte(s[k])
  {
    if s == [] || !NameByte(s[0]) then 0 else 1 + NameLen(s[1..])
  }

  /** An ASCII name followed by another ASCII byte. */
  function ParseName(s: Bytes): (r: Option<Bytes>)
    ensures r.Some? ==> 0 < |r.value| < |s| && s[..|r.value|] == r.value
  {
    if s == [] || !NameStart(s[0]) then None
    else
      var n := NameLen(s);
      if n < |s| && 0 < s[n] < 0x80 then Some(s[..n]) else None
  }

  /** What a reference at the start of the input stands for, and what follows it. */
  function Reference(table: EntityTable, s: Bytes): (r: (Bytes, Bytes))
    requires TableOk(table) && s != []
    ensures |r.1| < |s|
  {
    if |s| > 1 && s[1] == HASH then
      var hex := |s| > 2 && (s[2] == 120 || s[2] == 88);
      var (val, rest) := RefDigits(0, if hex then s[3..] else s[2..], hex);
      (if IsChar(val) then Utf8(val) else [], rest)
    else
      match ParseName(s[1..])
      case None => ([AMP], s[1..])
      case Some(name) =>
        var rest := s[1 + |name|..];
        if rest[0] == SEMI && ByName(table, name).Some? then
          EntryOk(table, ByName(table, name).value);
          (Utf8(ByName(table, name).value.value), rest[1..])
        else ([AMP] + name, rest)
  }

  lemma EntryOk(table: EntityTable, e: Entity)
    requires TableOk(table) && e in table
    ensures IsChar(e.value) && e.name != [] && NameStart(e.name[0]) && forall k :: 0 <= k < |e.name| ==> NameByte(e.name[k])
  {
  }

  /** Text with its references resolved. */
  function Parse(table: EntityTable, s: Bytes): (r: Bytes)
    requires TableOk(table)
    decreases |s|
  {
    if s == [] then []
    else if s[0] == AMP then
      var (text, rest) := Reference(table, s);
      text + Parse(table, rest)
    else [s[0]] + Parse(table, s[1..])
  }

  // ----- the round trip -----

  lemma {:induction false} DigitsAppend(val: nat, a: Bytes, b: Bytes)
    requires forall i :: 0 <= i < |a| ==> 48 <= a[i] <= 57
    ensures RefDigits(val, a + b, false) == RefDigits(Digested(val, a), b, false)
    decreases |a|
  {
    if a == [] {
      assert a + b == b;
    } else {
      assert (a + b)[1..] == a[1..] + b;
      DigitsAppend(if val < 0x11_0000 then val * 10 + (a[0] - 48) else val, a[1..], b);
    }
  }

  /** The value after reading decimal digits. */
  function Digested(val: nat, a: Bytes): (r: nat)
    requires forall i :: 0 <= i < |a| ==> 48 <= a[i] <= 57
    decreases |a|
  {
    if a == [] then val else Digested(if val < 0x11_0000 then val * 10 + (a[0] - 48) else val, a[1..])
  }

  lemma {:induction false} DigestedAppend(val: nat, a: Bytes, b: Bytes)
    requires forall i :: 0 <= i < |a| ==> 48 <= a[i] <= 57
    requires forall i :: 0 <= i < |b| ==> 48 <= b[i] <= 57
    ensures Digested(val, a + b) == Digested(Digested(val, a), b)
    decreases |a|
  {
    if a == [] {
      assert a + b == b;
    } else {
      assert (a + b)[1..] == a[1..] + b;
      DigestedAppend(if val < 0x11_0000 then val * 10 + (a[0] - 48) else val, a[1..], b);
    }
  }

  /** Printing a number and reading its digits gives it back. */
  lemma {:induction false} DecimalReadsBack(n: nat)
    requires n < 0x11_0000
    ensures Digested(0, Decimal(n)) == n
  {
    if n < 10 {
      assert Decimal(n)[1..] == [];
    } else {
      DecimalReadsBack(n / 10);
      var last := [48 + n % 10];
      DigestedAppend(0, Decimal(n / 10), last);
      assert last[1..] == [];
    }
  }

  lemma {:induction false} NameLenIs(name: Bytes, rest: Bytes)
    requires (forall k :: 0 <= k < |name| ==> NameByte(name[k])) && rest != [] && !NameByte(rest[0])
    ensures NameLen(name + rest) == |name|
    decreases |name|
  {
    if name == [] {
      assert name + rest == rest;
    } else {
      assert (name + rest)[1..] == name[1..] + rest;
      NameLenIs(name[1..], rest);
    }
  }

  lemma NamedReference(table: EntityTable, e: Entity, tail: Bytes)
    requires TableOk(table) && e in table
    ensures IsChar(e.value) && Reference(table, [AMP] + e.name + [SEMI] + tail) == (Utf8(e.value), tail)
  {
    EntryOk(table, e);
    NameFindsEntity(table, e);
    var s, rest := [AMP] + e.name + [SEMI] + tail, [SEMI] + tail;
    assert s[1..] == e.name + rest;
    NameLenIs(e.name, rest);
    assert s[1..][..|e.name|] == e.name;
    assert s[1 + |e.name|..] == rest;
  }

  lemma NumericReference(table: EntityTable, c: nat, tail: Bytes)
    requires TableOk(table) && IsChar(c)
    ensures Reference(table, [AMP, HASH] + Decimal(c) + [SEMI] + tail) == (Utf8(c), tail)
  {
    var s := [AMP, HASH] + Decimal(c) + [SEMI] + tail;
    assert s[2..] == Decimal(c) + ([SEMI] + tail);
    assert s[2] == Decimal(c)[0];
    DigitsAppend(0, Decimal(c), [SEMI] + tail);
    DecimalReadsBack(c);
    assert ([SEMI] + tail)[1..] == tail;
  }

  lemma ParseEncodedChar(table: EntityTable, quote: int, c: nat, tail: Bytes)
    requires TableOk(table) && IsChar(c)
    ensures Parse(table, EncodeChar(table, quote, c) + tail) == Utf8(c) + Parse(table, tail)
  {
    var s := EncodeChar(table, quote, c) + tail;
    if c < 0x80 && c != quote && c != AMP && c != LT && c != GT {
      assert s[1..] == tail;
    } else {
      match ByValue(table, c)
      case Some(e) => NamedReference(table, e, tail);
      case None => NumericReference(table, c, tail);
    }
  }

  function Utf8All(cs: seq<nat>): (r: Bytes)
    requires forall i :: 0 <= i < |cs| ==> IsChar(cs[i])
  {
    if cs == [] then [] else assert IsChar(cs[0]); Utf8(cs[0]) + Utf8All(cs[1..])
  }

  /** Encoding any text of XML characters and parsing the references back gives the text. */
  lemma {:induction false} RoundTrip(table: EntityTable, quote: int, cs: seq<nat>)
    requires TableOk(table) && forall i :: 0 <= i < |cs| ==> IsChar(cs[i])
    ensures Whole(Utf8All(cs)) && Parse(table, Encode(table, quote, Utf8All(cs))) == Utf8All(cs)
  {
    if cs != [] {
      var rest := Utf8All(cs[1..]);
      RoundTrip(table, quote, cs[1..]);
      DecodeUtf8(cs[0], rest);
      assert (Utf8(cs[0]) + rest)[|Utf8(cs[0])|..] == rest;
      ParseEncodedChar(table, quote, cs[0], Encode(table, quote, rest));
    }
  }
}
