/**
  JSON trees: what `parse_value` accepts, what `print_value` writes, and the round trip between
  them. The byte-by-byte methods that compute these functions are in JsonParser and JsonPrinter.
 */
module JsonTree {
  import opened Base
  import opened JsonText
  import opened JsonNumber

  /** A number is the exact decimal that its text spells, in normal form. */
  datatype Json =
    | Null
    | False
    | True
    | Number(n: Decimal)
    | String(s: seq<byte>)
    | Array(items: seq<Json>)
    | Object(members: seq<Member>)

  datatype Member = Member(key: seq<byte>, value: Json)

  const NESTING_LIMIT: nat := 1000

  const NULL_TEXT: seq<byte> := [0x6E, 0x75, 0x6C, 0x6C]
  const FALSE_TEXT: seq<byte> := [0x66, 0x61, 0x6C, 0x73, 0x65]
  const TRUE_TEXT: seq<byte> := [0x74, 0x72, 0x75, 0x65]
  const COMMA: byte := 0x2C
  const COLON: byte := 0x3A
  const LBRACKET: byte := 0x5B
  const RBRACKET: byte := 0x5D
  const LBRACE: byte := 0x7B
  const RBRACE: byte := 0x7D
  const TAB: byte := 9
  const NEWLINE: byte := 10
  const SPACE: byte := 32

  /** A C string is read up to its first NUL. */
  function CStr(s: seq<byte>): (r: seq<byte>)
    ensures 0 !in r
    ensures 0 !in s ==> r == s
  {
    if s == [] || s[0] == 0 then []
    else
      assert s == [s[0]] + s[1..];
      [s[0]] + CStr(s[1..])
  }

  function Nesting(t: Json): (n: nat)
    decreases t, 1
  {
    match t
    case Array(items) => 1 + NestingItems(items)
    case Object(members) => 1 + NestingMembers(members)
    case _ => 0
  }

  function NestingItems(items: seq<Json>): (n: nat)
    decreases items, 0
  {
    if items == [] then 0 else Max(Nesting(items[0]), NestingItems(items[1..]))
  }

  function NestingMembers(ms: seq<Member>): (n: nat)
    decreases ms, 0
  {
    if ms == [] then 0 else Max(Nesting(ms[0].value), NestingMembers(ms[1..]))
  }

  function Max(a: nat, b: nat): (m: nat) { if a < b then b else a }

  /** No string or key holds a NUL: what C strings can hold. */
  ghost predicate NulFree(t: Json)
    decreases t, 1
  {
    match t
    case String(s) => 0 !in s
    case Array(items) => NulFreeItems(items)
    case Object(ms) => NulFreeMembers(ms)
    case _ => true
  }

  ghost predicate NulFreeItems(items: seq<Json>)
    decreases items, 0
  {
    items == [] || (NulFree(items[0]) && NulFreeItems(items[1..]))
  }

  ghost predicate NulFreeMembers(ms: seq<Member>)
    decreases ms, 0
  {
    ms == [] || (0 !in ms[0].key && NulFree(ms[0].value) && NulFreeMembers(ms[1..]))
  }

  /** Every number is one that a reader gets back from its printed text. */
  ghost predicate RecoverableOnly(t: Json)
    decreases t, 1
  {
    match t
    case Number(n) => Recoverable(n)
    case Array(items) => RecoverableOnlyItems(items)
    case Object(ms) => RecoverableOnlyMembers(ms)
    case _ => true
  }

  ghost predicate RecoverableOnlyItems(items: seq<Json>)
    decreases items, 0
  {
    items == [] || (RecoverableOnly(items[0]) && RecoverableOnlyItems(items[1..]))
  }

  ghost predicate RecoverableOnlyMembers(ms: seq<Member>)
    decreases ms, 0
  {
    ms == [] || (RecoverableOnly(ms[0].value) && RecoverableOnlyMembers(ms[1..]))
  }

  //
  // Parsing
  //

  function SkipBlank(c: seq<byte>, off: nat): (k: nat)
    requires off <= |c|
    ensures off <= k <= |c|
    decreases |c| - off
  {
    if off < |c| && c[off] <= 32 then SkipBlank(c, off + 1) else off
  }

  /** `buffer_skip_whitespace`: at the end of the buffer it steps back onto the last byte. */
  function SkipWs(c: seq<byte>, off: nat): (k: nat)
    ensures off <= k
    ensures off < |c| ==> k < |c|
    ensures off >= |c| ==> k == off
  {
    if off >= |c| then off
    else
      var k := SkipBlank(c, off);
      if k == |c| then k - 1 else k
  }

  predicate SameByte(c: seq<byte>, off: nat, t: seq<byte>, i: nat) {
    i < |t| && off + i < |c| && c[off + i] == t[i]
  }

  /** `t` stands in `c` at `off`: the byte-by-byte comparison of `strncmp`. */
  predicate HasText(c: seq<byte>, off: nat, t: seq<byte>) {
    forall i: nat {:trigger SameByte(c, off, t, i)} :: i < |t| ==> SameByte(c, off, t, i)
  }

  lemma HasTextSlice(c: seq<byte>, off: nat, t: seq<byte>)
    requires off <= |c|
    ensures HasText(c, off, t) <==> off + |t| <= |c| && c[off..off + |t|] == t
  {
    if HasText(c, off, t) {
      if t != [] {
        assert SameByte(c, off, t, |t| - 1);
      }
      forall i: nat | i < |t| ensures c[off..off + |t|][i] == t[i] {
        assert SameByte(c, off, t, i);
      }
    }
    if off + |t| <= |c| && c[off..off + |t|] == t {
      forall i: nat | i < |t| ensures SameByte(c, off, t, i) {
        assert c[off + i] == c[off..off + |t|][i];
      }
    }
  }

  function NumberFrom(off: nat, v: Option<(Decimal, nat)>): (r: Option<(Json, nat)>) {
    if v.None? then None else Some((Number(v.value.0), off + v.value.1))
  }

  function NumberAt(c: seq<byte>, off: nat): (r: Option<(Json, nat)>)
    requires off < |c|
    ensures r.Some? ==> off < r.value.1 <= |c| && r.value.0.Number?
  {
    NumberFrom(off, Strtod(c[off..NumberRunEnd(c, off, NUMBER_RUN_MAX)]))
  }

  lemma HasTextFits(c: seq<byte>, off: nat, t: seq<byte>)
    requires HasText(c, off, t) && t != []
    ensures off + |t| <= |c|
  {
    assert SameByte(c, off, t, |t| - 1);
  }

  /** A value at `off`, `depth` containers deep, with the offset after it. */
  function ParseValue(c: seq<byte>, off: nat, depth: nat): (r: Option<(Json, nat)>)
    ensures r.Some? ==> off < r.value.1 <= |c|
    decreases |c| - off, 2
  {
    if HasText(c, off, NULL_TEXT) then HasTextFits(c, off, NULL_TEXT); Some((Null, off + 4))
    else if HasText(c, off, FALSE_TEXT) then HasTextFits(c, off, FALSE_TEXT); Some((False, off + 5))
    else if HasText(c, off, TRUE_TEXT) then HasTextFits(c, off, TRUE_TEXT); Some((True, off + 4))
    else if off >= |c| then None
    else if c[off] == QUOTE then
      var s := StringAt(c, off);
      if s.None? then None else Some((String(CStr(s.value.0)), s.value.1))
    else if c[off] == MINUS || IsDigit(c[off]) then NumberAt(c, off)
    else if c[off] == LBRACKET then ParseArray(c, off, depth)
    else if c[off] == LBRACE then ParseObject(c, off, depth)
    else None
  }

  function ParseArray(c: seq<byte>, off: nat, depth: nat): (r: Option<(Json, nat)>)
    ensures r.Some? ==> off < r.value.1 <= |c|
    decreases |c| - off, 1
  {
    if depth >= NESTING_LIMIT || off >= |c| then None
    else
      var p := SkipWs(c, off + 1);
      if p >= |c| then None
      else if c[p] == RBRACKET then Some((Array([]), p + 1))
      else
        var es := ParseItems(c, p, depth + 1);
        if es.None? then None else Some((Array(es.value.0), es.value.1))
  }

  /** The items from `p` on, and the offset after the closing bracket. */
  function ParseItems(c: seq<byte>, p: nat, depth: nat): (r: Option<(seq<Json>, nat)>)
    ensures r.Some? ==> p < r.value.1 <= |c|
    decreases |c| - p, 3
  {
    var v := ParseValue(c, p, depth);
    if v.None? then None
    else
      var q := SkipWs(c, v.value.1);
      if q >= |c| then None
      else if c[q] == COMMA then
        var rest := ParseItems(c, SkipWs(c, q + 1), depth);
        if rest.None? then None else Some(([v.value.0] + rest.value.0, rest.value.1))
      else if c[q] == RBRACKET then Some(([v.value.0], q + 1))
      else None
  }

  function ParseObject(c: seq<byte>, off: nat, depth: nat): (r: Option<(Json, nat)>)
    ensures r.Some? ==> off < r.value.1 <= |c|
    decreases |c| - off, 1
  {
    if depth >= NESTING_LIMIT || off >= |c| then None
    else
      var p := SkipWs(c, off + 1);
      if p >= |c| then None
      else if c[p] == RBRACE then Some((Object([]), p + 1))
      else
        var ms := ParseMembers(c, p, depth + 1);
        if ms.None? then None else Some((Object(ms.value.0), ms.value.1))
  }

  /** One `"key" : value` at `p`, with the offset after the blanks that follow it. */
  function ParseMember(c: seq<byte>, p: nat, depth: nat): (r: Option<(Member, nat)>)
    ensures r.Some? ==> p < r.value.1
    decreases |c| - p, 3
  {
    var key := StringAt(c, p);
    if key.None? then None
    else
      var k := SkipWs(c, key.value.1);
      if k >= |c| || c[k] != COLON then None
      else
        var v := ParseValue(c, SkipWs(c, k + 1), depth);
        if v.None? then None
        else Some((Member(CStr(key.value.0), v.value.0), SkipWs(c, v.value.1)))
  }

  function ParseMembers(c: seq<byte>, p: nat, depth: nat): (r: Option<(seq<Member>, nat)>)
    ensures r.Some? ==> p < r.value.1 <= |c|
    decreases |c| - p, 4
  {
    var m := ParseMember(c, p, depth);
    if m.None? then None
    else
      var q := m.value.1;
      if q >= |c| then None
      else if c[q] == COMMA then
        var rest := ParseMembers(c, SkipWs(c, q + 1), depth);
        if rest.None? then None else Some(([m.value.0] + rest.value.0, rest.value.1))
      else if c[q] == RBRACE then Some(([m.value.0], q + 1))
      else None
  }

  /** `skip_utf8_bom` at the start of a buffer. */
  function BomEnd(c: seq<byte>): (k: nat)
    ensures k == 0 || k == 3
  {
    if |c| > 4 && c[..3] == [0xEF, 0xBB, 0xBF] then 3 else 0
  }

  /** `cJSON_Parse` on a C string: the buffer includes the terminating NUL. */
  function Parse(text: seq<byte>): (r: Option<Json>) {
    var c := text + [0];
    var v := ParseValue(c, SkipWs(c, BomEnd(c)), 0);
    if v.None? then None else Some(v.value.0)
  }

  //
  // What the parser can produce
  //

  /** Whatever parses is NUL-free and nests no deeper than the limit allows. */
  lemma {:induction false} ParsedValueBounded(c: seq<byte>, off: nat, depth: nat)
    requires depth <= NESTING_LIMIT && ParseValue(c, off, depth).Some?
    ensures NulFree(ParseValue(c, off, depth).value.0)
    ensures depth + Nesting(ParseValue(c, off, depth).value.0) <= NESTING_LIMIT
    decreases |c| - off, 2
  {
    var t := ParseValue(c, off, depth).value.0;
    if t.Array? && t.items != [] {
      ParsedItemsBounded(c, SkipWs(c, off + 1), depth + 1);
    } else if t.Object? && t.members != [] {
      ParsedMembersBounded(c, SkipWs(c, off + 1), depth + 1);
    }
  }

  lemma {:induction false} ParsedItemsBounded(c: seq<byte>, p: nat, depth: nat)
    requires depth <= NESTING_LIMIT && ParseItems(c, p, depth).Some?
    ensures var ts := ParseItems(c, p, depth).value.0;
            && NulFreeItems(ts)
            && depth + NestingItems(ts) <= NESTING_LIMIT
    decreases |c| - p, 3
  {
    var ts := ParseItems(c, p, depth).value.0;
    ParsedValueBounded(c, p, depth);
    var q := SkipWs(c, ParseValue(c, p, depth).value.1);
    if c[q] == COMMA {
      ParsedItemsBounded(c, SkipWs(c, q + 1), depth);
      assert ts[1..] == ParseItems(c, SkipWs(c, q + 1), depth).value.0;
    } else {
      assert ts[1..] == [];
    }
  }

  lemma {:induction false} ParsedMemberBounded(c: seq<byte>, p: nat, depth: nat)
    requires depth <= NESTING_LIMIT && ParseMember(c, p, depth).Some?
    ensures var m := ParseMember(c, p, depth).value.0;
            0 !in m.key && NulFree(m.value) && depth + Nesting(m.value) <= NESTING_LIMIT
    decreases |c| - p, 3
  {
    var k := SkipWs(c, StringAt(c, p).value.1);
    ParsedValueBounded(c, SkipWs(c, k + 1), depth);
  }

  /** The member parser's result is the first member and what the rest parses to. */
  lemma ParseMembersCases(c: seq<byte>, p: nat, depth: nat)
    requires ParseMembers(c, p, depth).Some?
    ensures ParseMember(c, p, depth).Some?
    ensures var m := ParseMember(c, p, depth).value;
            var ms := ParseMembers(c, p, depth).value.0;
            || ms == [m.0]
            || (ParseMembers(c, SkipWs(c, m.1 + 1), depth).Some?
                && m.1 < |c|
                && ms == [m.0] + ParseMembers(c, SkipWs(c, m.1 + 1), depth).value.0)
  {
  }

  lemma {:induction false} ParsedMembersBounded(c: seq<byte>, p: nat, depth: nat)
    requires depth <= NESTING_LIMIT && ParseMembers(c, p, depth).Some?
    ensures var ms := ParseMembers(c, p, depth).value.0;
            NulFreeMembers(ms) && depth + NestingMembers(ms) <= NESTING_LIMIT
    decreases |c| - p, 4
  {
    ParseMembersCases(c, p, depth);
    ParsedMemberBounded(c, p, depth);
    var m := ParseMember(c, p, depth).value;
    var ms := ParseMembers(c, p, depth).value.0;
    if ms == [m.0] {
      assert ms[1..] == [];
    } else {
      var rest := ParseMembers(c, SkipWs(c, m.1 + 1), depth).value.0;
      ParsedMembersBounded(c, SkipWs(c, m.1 + 1), depth);
      assert ms[1..] == rest;
    }
  }

  //
  // Printing
  //

  function Tabs(n: nat): (t: seq<byte>)
    ensures |t| == n && forall i :: 0 <= i < n ==> t[i] == TAB
  {
    seq(n, _ => TAB)
  }

  function Separator(fmt: bool): (t: seq<byte>) { if fmt then [COMMA, SPACE] else [COMMA] }

  /** The text of a value printed `depth` containers deep. */
  function PrintValue(t: Json, depth: nat, fmt: bool): (text: seq<byte>)
    decreases t, 1
  {
    match t
    case Null => NULL_TEXT
    case False => FALSE_TEXT
    case True => TRUE_TEXT
    case Number(n) => NumberText(n)
    case String(s) => Quoted(s)
    case Array(items) => [LBRACKET] + PrintItems(items, depth + 1, fmt) + [RBRACKET]
    case Object(ms) => Opening(fmt) + PrintMembers(ms, depth + 1, fmt) + Closing(depth, fmt)
  }

  function PrintItems(items: seq<Json>, depth: nat, fmt: bool): (text: seq<byte>)
    decreases items, 0
  {
    if items == [] then []
    else
      PrintValue(items[0], depth, fmt)
      + (if |items| > 1 then Separator(fmt) else [])
      + PrintItems(items[1..], depth, fmt)
  }

  function PrintMembers(ms: seq<Member>, depth: nat, fmt: bool): (text: seq<byte>)
    decreases ms, 0
  {
    if ms == [] then []
    else
      MemberLead(ms[0].key, depth, fmt)
      + PrintValue(ms[0].value, depth, fmt)
      + MemberTail(|ms| > 1, fmt)
      + PrintMembers(ms[1..], depth, fmt)
  }

  /** Columns of indentation. */
  function Width(depth: nat, fmt: bool): (n: nat) { if fmt then depth else 0 }

  function Indent(depth: nat, fmt: bool): (t: seq<byte>)
    ensures |t| == Width(depth, fmt)
    ensures forall i :: 0 <= i < |t| ==> t[i] == TAB
  {
    if fmt then Tabs(depth) else []
  }

  function Opening(fmt: bool): (t: seq<byte>) { if fmt then [LBRACE, NEWLINE] else [LBRACE] }

  function Closing(depth: nat, fmt: bool): (t: seq<byte>) { Indent(depth, fmt) + [RBRACE] }

  function Colon(fmt: bool): (t: seq<byte>) { if fmt then [COLON, TAB] else [COLON] }

  /** Indentation, key and colon. */
  function MemberLead(key: seq<byte>, depth: nat, fmt: bool): (t: seq<byte>) {
    Indent(depth, fmt) + Quoted(key) + Colon(fmt)
  }

  function MemberTail(more: bool, fmt: bool): (t: seq<byte>) {
    if more then if fmt then [COMMA, NEWLINE] else [COMMA]
    else if fmt then [NEWLINE] else []
  }

  //
  // Printed text holds no NUL, so `update_offset` stops where the text stops
  //

  lemma NoNulConcat(a: seq<byte>, b: seq<byte>)
    requires 0 !in a && 0 !in b
    ensures 0 !in a + b
  {
  }

  lemma NumberTextHasNoNul(n: Decimal)
    ensures 0 !in NumberText(n)
  {
    NumberTextBytes(n);
    assert !IsNumberByte(0);
  }

  lemma QuotedHasNoNul(s: seq<byte>)
    ensures 0 !in Quoted(s)
  {
    EscapeHasNoNul(s);
    NoNulConcat(Escape(s), [QUOTE]);
    NoNulConcat([QUOTE], Escape(s) + [QUOTE]);
  }

  lemma {:induction false} PrintHasNoNul(t: Json, depth: nat, fmt: bool)
    ensures 0 !in PrintValue(t, depth, fmt)
    decreases t, 1
  {
    match t
    case Number(n) => NumberTextHasNoNul(n);
    case String(s) => QuotedHasNoNul(s);
    case Array(items) =>
      var body := PrintItems(items, depth + 1, fmt);
      PrintItemsHasNoNul(items, depth + 1, fmt);
      NoNulConcat([LBRACKET], body);
      NoNulConcat([LBRACKET] + body, [RBRACKET]);
    case Object(ms) =>
      var body := PrintMembers(ms, depth + 1, fmt);
      PrintMembersHasNoNul(ms, depth + 1, fmt);
      NoNulConcat(Indent(depth, fmt), [RBRACE]);
      NoNulConcat(Opening(fmt), body);
      NoNulConcat(Opening(fmt) + body, Closing(depth, fmt));
    case _ =>
  }

  lemma {:induction false} PrintItemsHasNoNul(items: seq<Json>, depth: nat, fmt: bool)
    ensures 0 !in PrintItems(items, depth, fmt)
    decreases items, 0
  {
    if items != [] {
      var first := PrintValue(items[0], depth, fmt);
      var sep := if |items| > 1 then Separator(fmt) else [];
      PrintHasNoNul(items[0], depth, fmt);
      PrintItemsHasNoNul(items[1..], depth, fmt);
      NoNulConcat(first, sep);
      NoNulConcat(first + sep, PrintItems(items[1..], depth, fmt));
    }
  }

  lemma LeadHasNoNul(key: seq<byte>, depth: nat, fmt: bool)
    ensures 0 !in MemberLead(key, depth, fmt)
  {
    QuotedHasNoNul(key);
    NoNulConcat(Indent(depth, fmt), Quoted(key));
    NoNulConcat(Indent(depth, fmt) + Quoted(key), Colon(fmt));
  }

  lemma {:induction false} PrintMembersHasNoNul(ms: seq<Member>, depth: nat, fmt: bool)
    ensures 0 !in PrintMembers(ms, depth, fmt)
    decreases ms, 0
  {
    if ms != [] {
      var lead := MemberLead(ms[0].key, depth, fmt);
      var text := PrintValue(ms[0].value, depth, fmt);
      var tail := MemberTail(|ms| > 1, fmt);
      LeadHasNoNul(ms[0].key, depth, fmt);
      PrintHasNoNul(ms[0].value, depth, fmt);
      PrintMembersHasNoNul(ms[1..], depth, fmt);
      NoNulConcat(lead, text);
      NoNulConcat(lead + text, tail);
      NoNulConcat(lead + text + tail, PrintMembers(ms[1..], depth, fmt));
    }
  }

  //
  // Round trip
  //

  /** What the round trip needs of a tree that stands `d` containers deep, in one recursion. */
  ghost predicate Printable(t: Json, d: nat)
    decreases t, 1
  {
    match t
    case Number(n) => Recoverable(n)
    case String(s) => 0 !in s
    case Array(items) => d < NESTING_LIMIT && PrintableItems(items, d + 1)
    case Object(ms) => d < NESTING_LIMIT && PrintableMembers(ms, d + 1)
    case _ => true
  }

  ghost predicate PrintableItems(items: seq<Json>, d: nat)
    decreases items, 0
  {
    items == [] || (Printable(items[0], d) && PrintableItems(items[1..], d))
  }

  ghost predicate PrintableMembers(ms: seq<Member>, d: nat)
    decreases ms, 0
  {
    ms == [] || (0 !in ms[0].key && Printable(ms[0].value, d) && PrintableMembers(ms[1..], d))
  }

  lemma {:induction false} PrintableWhen(t: Json, d: nat)
    requires NulFree(t) && RecoverableOnly(t) && d + Nesting(t) <= NESTING_LIMIT
    ensures Printable(t, d)
    decreases t, 1
  {
    match t
    case Array(items) => PrintableItemsWhen(items, d + 1);
    case Object(ms) => PrintableMembersWhen(ms, d + 1);
    case _ =>
  }

  lemma {:induction false} PrintableItemsWhen(items: seq<Json>, d: nat)
    requires NulFreeItems(items) && RecoverableOnlyItems(items)
    requires d + NestingItems(items) <= NESTING_LIMIT
    ensures PrintableItems(items, d)
    decreases items, 0
  {
    if items != [] {
      PrintableWhen(items[0], d);
      PrintableItemsWhen(items[1..], d);
    }
  }

  lemma {:induction false} PrintableMembersWhen(ms: seq<Member>, d: nat)
    requires NulFreeMembers(ms) && RecoverableOnlyMembers(ms)
    requires d + NestingMembers(ms) <= NESTING_LIMIT
    ensures PrintableMembers(ms, d)
    decreases ms, 0
  {
    if ms != [] {
      PrintableWhen(ms[0].value, d);
      PrintableMembersWhen(ms[1..], d);
    }
  }

  lemma SkipTo(c: seq<byte>, a: nat, b: nat)
    requires a <= b < |c| && c[b] > 32
    requires forall i :: a <= i < b ==> c[i] <= 32
    ensures SkipWs(c, a) == b
  {
    SkipBlankTo(c, a, b);
  }

  lemma {:induction false} SkipBlankTo(c: seq<byte>, a: nat, b: nat)
    requires a <= b <= |c| && (b < |c| ==> c[b] > 32)
    requires forall i :: a <= i < b ==> c[i] <= 32
    ensures SkipBlank(c, a) == b
    decreases b - a
  {
    if a < b {
      SkipBlankTo(c, a + 1, b);
    }
  }

  lemma {:induction false} NumberRunIs(c: seq<byte>, i: nat, e: nat, room: nat)
    requires i <= e <= |c| && e - i <= room
    requires forall j :: i <= j < e ==> IsNumberByte(c[j])
    requires e == |c| || !IsNumberByte(c[e])
    ensures NumberRunEnd(c, i, room) == e
    decreases e - i
  {
    if i < e {
      NumberRunIs(c, i + 1, e, room - 1);
    }
  }

  /** The byte after a value in a container or at the end of a text never extends a number. */
  predicate Ends(c: seq<byte>, e: nat) { e >= |c| || !IsNumberByte(c[e]) }

  /** The parser reads `n` from `off` to `e`. Kept folded; `Unfold(3)` opens it. */
  ghost predicate NumberReads(c: seq<byte>, off: nat, n: Decimal, e: nat) {
    forall k: nat {:trigger Unfold(k)} :: Unfold(k) && k == 3 ==>
      off < |c| && NumberAt(c, off) == Some((Number(n), e))
  }

  lemma NumberAtRun(c: seq<byte>, off: nat, e: nat, n: Decimal)
    requires off < |c| && off < e == NumberRunEnd(c, off, NUMBER_RUN_MAX)
    ensures ReadsAs(c[off..e], n) ==> NumberReads(c, off, n, e)
  {
    if ReadsAs(c[off..e], n) {
      assert Unfold(2);
    }
  }

  lemma NumberRunAt(c: seq<byte>, off: nat, t: seq<byte>)
    requires 0 < |t| <= NUMBER_RUN_MAX && OnlyNumberBytes(t) && HasText(c, off, t) && Ends(c, off + |t|)
    ensures off + |t| <= |c| && c[off..off + |t|] == t && NumberRunEnd(c, off, NUMBER_RUN_MAX) == off + |t|
  {
    HasTextFront(c, off, t);
    HasTextSlice(c, off, t);
    NumberRunOf(c, off, t);
  }

  /** Parsing a printed number gives the number, and stops behind it. */
  lemma NumberRoundTrip(c: seq<byte>, off: nat, n: Decimal)
    requires Recoverable(n)
    requires HasText(c, off, NumberText(n))
    requires Ends(c, off + |NumberText(n)|)
    ensures off < |c|
    ensures NumberAt(c, off) == Some((Number(n), off + |NumberText(n)|))
  {
    NumberTextLength(n);
    NumberTextBytes(n);
    NumberBack(n);
    NumberRunAt(c, off, NumberText(n));
    NumberAtRun(c, off, off + |NumberText(n)|, n);
    assert Unfold(3);
  }

  lemma NumberRunOf(c: seq<byte>, off: nat, t: seq<byte>)
    requires off + |t| <= |c| && c[off..off + |t|] == t && OnlyNumberBytes(t) && |t| <= NUMBER_RUN_MAX
    requires Ends(c, off + |t|)
    ensures NumberRunEnd(c, off, NUMBER_RUN_MAX) == off + |t|
  {
    forall j | off <= j < off + |t| ensures IsNumberByte(c[j]) {
      assert c[j] == t[j - off];
    }
    NumberRunIs(c, off, off + |t|, NUMBER_RUN_MAX);
  }

  /** A printed value starts with a byte that no blank skipper and no empty container eats. */
  lemma PrintValueFirst(t: Json, depth: nat, fmt: bool)
    ensures PrintValue(t, depth, fmt) != []
    ensures var b := PrintValue(t, depth, fmt)[0];
            b > 32 && b != RBRACKET && b != RBRACE && b != 0xEF
  {
    if t.Number? {
      NumberTextBytes(t.n);
    }
  }

  lemma HasTextSplit(c: seq<byte>, off: nat, a: seq<byte>, b: seq<byte>)
    requires HasText(c, off, a + b)
    ensures HasText(c, off, a) && HasText(c, off + |a|, b)
  {
    forall i: nat | i < |a| ensures SameByte(c, off, a, i) {
      assert SameByte(c, off, a + b, i);
    }
    var mid := off + |a|;
    forall i: nat | i < |b| ensures SameByte(c, mid, b, i) {
      assert SameByte(c, off, a + b, |a| + i);
    }
  }

  lemma HasTextAt(c: seq<byte>, off: nat, t: seq<byte>, i: nat)
    requires HasText(c, off, t) && i < |t|
    ensures off + i < |c| && c[off + i] == t[i]
  {
    assert SameByte(c, off, t, i);
  }

  lemma HasTextFront(c: seq<byte>, off: nat, t: seq<byte>)
    requires HasText(c, off, t)
    ensures t != [] ==> off + |t| <= |c|
    ensures forall i :: off <= i < off + |t| ==> c[i] == t[i - off]
  {
    if t != [] {
      HasTextFits(c, off, t);
    }
    forall i | off <= i < off + |t| ensures c[i] == t[i - off] {
      HasTextAt(c, off, t, i - off);
    }
  }

  //
  // Placed texts. These predicates stay folded until `Unfold` is mentioned, so that the induction
  // over trees never sees the texts themselves.
  //

  /** The printed value `t` stands in `c` from `p` to `e`, `d` containers deep. */
  ghost predicate ValuePlaced(c: seq<byte>, p: nat, e: nat, t: Json, depth: nat, fmt: bool, d: nat) {
    forall n: nat {:trigger Unfold(n)} :: Unfold(n) ==>
      && Printable(t, d) && HasText(c, p, PrintValue(t, depth, fmt))
      && e == p + |PrintValue(t, depth, fmt)| && Ends(c, e)
  }

  /** Printed items stand from `p` to the closing bracket at `e`. */
  ghost predicate ItemsPlaced(
      c: seq<byte>, p: nat, e: nat, items: seq<Json>, depth: nat, fmt: bool, d: nat)
  {
    forall n: nat {:trigger Unfold(n)} :: Unfold(n) ==>
      && PrintableItems(items, d) && HasText(c, p, PrintItems(items, depth, fmt))
      && e == p + |PrintItems(items, depth, fmt)| && e < |c| && c[e] == RBRACKET
  }

  /** Printed members stand from `p`, their closing brace ends at `e`. */
  ghost predicate MembersPlaced(
      c: seq<byte>, p: nat, e: nat, ms: seq<Member>, depth: nat, fmt: bool, d: nat)
  {
    forall n: nat {:trigger Unfold(n)} :: Unfold(n) ==>
      && depth > 0 && PrintableMembers(ms, d) && HasText(c, p, PrintMembers(ms, depth, fmt))
      && HasText(c, p + |PrintMembers(ms, depth, fmt)|, Closing(depth - 1, fmt))
      && e == p + |PrintMembers(ms, depth, fmt)| + |Closing(depth - 1, fmt)|
  }

  //
  // Where the parts of a placed text stand
  //

  /** First byte of a printed value in place: it tells the kinds apart and is no blank. */
  lemma FirstByteAt(c: seq<byte>, p: nat, t: Json, depth: nat, fmt: bool)
    requires HasText(c, p, PrintValue(t, depth, fmt))
    ensures p < |c| && c[p] > 32 && c[p] != RBRACKET
    ensures match t
            case Null => c[p] == 0x6E
            case False => c[p] == 0x66
            case True => c[p] == 0x74
            case Number(_) => c[p] == MINUS || IsDigit(c[p])
            case String(_) => c[p] == QUOTE
            case Array(_) => c[p] == LBRACKET
            case Object(_) => c[p] == LBRACE
  {
    PrintValueFirst(t, depth, fmt);
    HasTextAt(c, p, PrintValue(t, depth, fmt), 0);
    if t.Number? {
      NumberTextBytes(t.n);
    }
  }

  lemma ArraySplit(c: seq<byte>, p: nat, e: nat, items: seq<Json>, depth: nat, fmt: bool, d: nat)
    requires ValuePlaced(c, p, e, Array(items), depth, fmt, d)
    ensures d < NESTING_LIMIT && p < |c| && c[p] == LBRACKET && p + 1 < e <= |c|
    ensures ItemsPlaced(c, p + 1, e - 1, items, depth + 1, fmt, d + 1)
    ensures items == [] ==> e == p + 2
    ensures c[e - 1] == RBRACKET
  {
    assert Unfold(0);
    var body := PrintItems(items, depth + 1, fmt);
    FirstByteAt(c, p, Array(items), depth, fmt);
    HasTextSplit(c, p, [LBRACKET] + body, [RBRACKET]);
    HasTextSplit(c, p, [LBRACKET], body);
    HasTextAt(c, p + 1 + |body|, [RBRACKET], 0);
  }

  /** The parts of a printed item list. */
  lemma ItemsSplit(c: seq<byte>, p: nat, items: seq<Json>, depth: nat, fmt: bool)
    requires items != [] && HasText(c, p, PrintItems(items, depth, fmt))
    ensures var q := p + |PrintValue(items[0], depth, fmt)|;
            var z := q + |Separator(fmt)|;
            && HasText(c, p, PrintValue(items[0], depth, fmt))
            && if |items| == 1 then q == p + |PrintItems(items, depth, fmt)|
               else
                 && HasText(c, q, Separator(fmt)) && HasText(c, z, PrintItems(items[1..], depth, fmt))
                 && z + |PrintItems(items[1..], depth, fmt)| == p + |PrintItems(items, depth, fmt)|
  {
    var first := PrintValue(items[0], depth, fmt);
    var sep := if |items| > 1 then Separator(fmt) else [];
    HasTextSplit(c, p, first + sep, PrintItems(items[1..], depth, fmt));
    HasTextSplit(c, p, first, sep);
  }

  lemma SeparatorSkip(c: seq<byte>, q: nat, fmt: bool)
    requires HasText(c, q, Separator(fmt))
    requires var z := q + |Separator(fmt)|; z < |c| && c[z] > 32
    ensures q < |c| && c[q] == COMMA && SkipWs(c, q) == q
    ensures SkipWs(c, q + 1) == q + |Separator(fmt)|
  {
    HasTextAt(c, q, Separator(fmt), 0);
    if fmt {
      HasTextAt(c, q, Separator(fmt), 1);
    }
    SkipTo(c, q, q);
    SkipTo(c, q + 1, q + |Separator(fmt)|);
  }

  /** Items in place start with no blank. */
  lemma ItemsFirst(c: seq<byte>, p: nat, e: nat, items: seq<Json>, depth: nat, fmt: bool, d: nat)
    requires items != [] && ItemsPlaced(c, p, e, items, depth, fmt, d)
    ensures p < |c| && c[p] > 32 && c[p] != RBRACKET && SkipWs(c, p) == p
  {
    assert Unfold(0);
    ItemsSplit(c, p, items, depth, fmt);
    FirstByteAt(c, p, items[0], depth, fmt);
    SkipTo(c, p, p);
  }

  /** The only item of a list stands right before the closing bracket. */
  lemma LastItem(c: seq<byte>, p: nat, e: nat, items: seq<Json>, depth: nat, fmt: bool, d: nat)
    requires |items| == 1 && ItemsPlaced(c, p, e, items, depth, fmt, d)
    ensures ValuePlaced(c, p, e, items[0], depth, fmt, d)
    ensures e < |c| && c[e] == RBRACKET && SkipWs(c, e) == e
  {
    assert Unfold(0);
    ItemsSplit(c, p, items, depth, fmt);
    SkipTo(c, e, e);
  }

  /** The first of several items, the separator behind it and the rest. */
  lemma NextItem(c: seq<byte>, p: nat, e: nat, items: seq<Json>, depth: nat, fmt: bool, d: nat)
      returns (q: nat, z: nat)
    requires |items| > 1 && ItemsPlaced(c, p, e, items, depth, fmt, d)
    ensures ValuePlaced(c, p, q, items[0], depth, fmt, d)
    ensures CommaLeadsTo(c, q, z)
    ensures ItemsPlaced(c, z, e, items[1..], depth, fmt, d)
  {
    assert Unfold(0);
    q := p + |PrintValue(items[0], depth, fmt)|;
    z := q + |Separator(fmt)|;
    ItemsSplit(c, p, items, depth, fmt);
    assert ItemsPlaced(c, z, e, items[1..], depth, fmt, d);
    ItemsFirst(c, z, e, items[1..], depth, fmt, d);
    SeparatorSkip(c, q, fmt);
  }

  ghost predicate Blanks(c: seq<byte>, a: nat, b: nat) {
    b <= |c| && forall i :: a <= i < b ==> c[i] <= 32
  }

  lemma IndentBlanks(c: seq<byte>, p: nat, depth: nat, fmt: bool)
    requires HasText(c, p, Indent(depth, fmt)) && p + Width(depth, fmt) <= |c|
    ensures Blanks(c, p, p + Width(depth, fmt))
  {
    HasTextFront(c, p, Indent(depth, fmt));
  }

  /** A closing brace in place, behind its indentation. */
  lemma ClosingAt(c: seq<byte>, p: nat, depth: nat, fmt: bool)
    requires HasText(c, p, Closing(depth, fmt))
    ensures var q := p + |Closing(depth, fmt)| - 1;
            q < |c| && c[q] == RBRACE && Blanks(c, p, q)
  {
    HasTextFits(c, p, Closing(depth, fmt));
    HasTextSplit(c, p, Indent(depth, fmt), [RBRACE]);
    IndentBlanks(c, p, depth, fmt);
    HasTextAt(c, p + Width(depth, fmt), [RBRACE], 0);
  }

  lemma SkipOver(c: seq<byte>, a: nat, m: nat, b: nat)
    requires a <= m <= b < |c| && c[b] > 32
    requires Blanks(c, a, m) && Blanks(c, m, b)
    ensures SkipWs(c, a) == b
  {
    SkipTo(c, a, b);
  }

  lemma OpeningSkip(c: seq<byte>, off: nat, b: nat, fmt: bool)
    requires HasText(c, off, Opening(fmt))
    requires var p := off + |Opening(fmt)|; p <= b < |c| && c[b] > 32 && Blanks(c, p, b)
    ensures SkipWs(c, off + 1) == b
  {
    if fmt {
      HasTextAt(c, off, Opening(fmt), 1);
    }
    SkipOver(c, off + 1, off + |Opening(fmt)|, b);
  }

  lemma TailSkip(c: seq<byte>, z: nat, b: nat, more: bool, fmt: bool)
    requires HasText(c, z, MemberTail(more, fmt))
    requires var p := z + |MemberTail(more, fmt)|; p <= b < |c| && c[b] > 32 && Blanks(c, p, b)
    ensures more ==> z < |c| && c[z] == COMMA && SkipWs(c, z) == z && SkipWs(c, z + 1) == b
    ensures !more ==> SkipWs(c, z) == b
    ensures !IsNumberByte(c[b]) ==> Ends(c, z)
  {
    var tail := MemberTail(more, fmt);
    HasTextFront(c, z, tail);
    if more {
      SkipTo(c, z, z);
      SkipOver(c, z + 1, z + |tail|, b);
    } else {
      SkipOver(c, z, z + |tail|, b);
    }
  }

  /** After its indentation a member starts with the quote of its key. */
  lemma MemberLeadSplit(c: seq<byte>, p: nat, key: seq<byte>, depth: nat, fmt: bool)
    requires HasText(c, p, MemberLead(key, depth, fmt))
    ensures var k := p + Width(depth, fmt);
            && HasText(c, p, Indent(depth, fmt)) && HasText(c, k, Quoted(key))
            && k < |c| && c[k] == QUOTE
            && HasText(c, k + |Quoted(key)|, Colon(fmt))
            && k + |Quoted(key)| + |Colon(fmt)| == p + |MemberLead(key, depth, fmt)|
  {
    HasTextSplit(c, p, Indent(depth, fmt) + Quoted(key), Colon(fmt));
    HasTextSplit(c, p, Indent(depth, fmt), Quoted(key));
    HasTextAt(c, p + Width(depth, fmt), Quoted(key), 0);
  }

  lemma HasTextSplit4(
      c: seq<byte>, p: nat, t: seq<byte>, a: seq<byte>, b: seq<byte>, x: seq<byte>, y: seq<byte>)
    requires HasText(c, p, t) && t == a + b + x + y
    ensures |t| == |a| + |b| + |x| + |y|
    ensures HasText(c, p, a) && HasText(c, p + |a|, b)
    ensures HasText(c, p + |a| + |b|, x) && HasText(c, p + |a| + |b| + |x|, y)
  {
    HasTextSplit(c, p, a + b + x, y);
    HasTextSplit(c, p, a + b, x);
    HasTextSplit(c, p, a, b);
  }

  lemma MembersSplit(c: seq<byte>, p: nat, ms: seq<Member>, depth: nat, fmt: bool)
    requires ms != [] && HasText(c, p, PrintMembers(ms, depth, fmt))
    ensures var v := p + |MemberLead(ms[0].key, depth, fmt)|;
            var z := v + |PrintValue(ms[0].value, depth, fmt)|;
            var p' := z + |MemberTail(|ms| > 1, fmt)|;
            && HasText(c, p, MemberLead(ms[0].key, depth, fmt))
            && HasText(c, v, PrintValue(ms[0].value, depth, fmt))
            && HasText(c, z, MemberTail(|ms| > 1, fmt))
            && HasText(c, p', PrintMembers(ms[1..], depth, fmt))
            && p' + |PrintMembers(ms[1..], depth, fmt)| == p + |PrintMembers(ms, depth, fmt)|
  {
    HasTextSplit4(c, p, PrintMembers(ms, depth, fmt),
                  MemberLead(ms[0].key, depth, fmt), PrintValue(ms[0].value, depth, fmt),
                  MemberTail(|ms| > 1, fmt), PrintMembers(ms[1..], depth, fmt));
  }

  /** Members start with blanks and the quote of the first key. */
  lemma MembersFirst(c: seq<byte>, p: nat, ms: seq<Member>, depth: nat, fmt: bool)
    requires ms != [] && HasText(c, p, PrintMembers(ms, depth, fmt))
    ensures var k := p + Width(depth, fmt);
            k < |c| && c[k] == QUOTE && Blanks(c, p, k)
  {
    MembersSplit(c, p, ms, depth, fmt);
    MemberLeadSplit(c, p, ms[0].key, depth, fmt);
    IndentBlanks(c, p, depth, fmt);
  }

  lemma ObjectSplit(c: seq<byte>, off: nat, ms: seq<Member>, depth: nat, fmt: bool)
    requires HasText(c, off, PrintValue(Object(ms), depth, fmt))
    ensures var p := off + |Opening(fmt)|;
            var z := p + |PrintMembers(ms, depth + 1, fmt)|;
            && HasText(c, off, Opening(fmt))
            && HasText(c, p, PrintMembers(ms, depth + 1, fmt))
            && HasText(c, z, Closing(depth, fmt))
            && z + |Closing(depth, fmt)| == off + |PrintValue(Object(ms), depth, fmt)|
  {
    HasTextSplit(c, off, Opening(fmt) + PrintMembers(ms, depth + 1, fmt), Closing(depth, fmt));
    HasTextSplit(c, off, Opening(fmt), PrintMembers(ms, depth + 1, fmt));
  }

  lemma EmptyObject(c: seq<byte>, off: nat, e: nat, depth: nat, fmt: bool, d: nat)
    requires ValuePlaced(c, off, e, Object([]), depth, fmt, d)
    ensures d < NESTING_LIMIT && off < |c| && c[off] == LBRACE
    ensures SkipWs(c, off + 1) + 1 == e <= |c| && c[e - 1] == RBRACE
  {
    assert Unfold(0);
    FirstByteAt(c, off, Object([]), depth, fmt);
    ObjectSplit(c, off, [], depth, fmt);
    ClosingAt(c, off + |Opening(fmt)|, depth, fmt);
    OpeningSkip(c, off, e - 1, fmt);
  }

  lemma ObjectOpened(c: seq<byte>, off: nat, e: nat, ms: seq<Member>, depth: nat, fmt: bool, d: nat)
    requires ValuePlaced(c, off, e, Object(ms), depth, fmt, d)
    ensures d < NESTING_LIMIT && PrintableMembers(ms, d + 1)
    ensures HasText(c, off, PrintValue(Object(ms), depth, fmt)) && e == off + |PrintValue(Object(ms), depth, fmt)|
  {
    assert Unfold(0);
  }

  lemma ObjectParts(
      c: seq<byte>, off: nat, e: nat, ms: seq<Member>, depth: nat, fmt: bool, d: nat) returns (p: nat)
    requires ms != [] && ValuePlaced(c, off, e, Object(ms), depth, fmt, d)
    ensures d < NESTING_LIMIT && off < |c| && c[off] == LBRACE
    ensures MembersPlaced(c, p, e, ms, depth + 1, fmt, d + 1)
    ensures SkipWs(c, off + 1) == p + Width(depth + 1, fmt) < |c|
    ensures c[p + Width(depth + 1, fmt)] == QUOTE
  {
    p := off + |Opening(fmt)|;
    ObjectOpened(c, off, e, ms, depth, fmt, d);
    FirstByteAt(c, off, Object(ms), depth, fmt);
    ObjectSplit(c, off, ms, depth, fmt);
    MembersFirst(c, p, ms, depth + 1, fmt);
    OpeningSkip(c, off, p + Width(depth + 1, fmt), fmt);
    MembersClosed(c, p, e, ms, depth + 1, fmt, d + 1, PrintMembers(ms, depth + 1, fmt));
  }

  /** A key and its colon lead the parser to the value. */
  lemma KeyRoundTrip(c: seq<byte>, k: nat, key: seq<byte>, fmt: bool)
    requires 0 !in key && HasText(c, k, Quoted(key)) && HasText(c, k + |Quoted(key)|, Colon(fmt))
    requires var v := k + |Quoted(key)| + |Colon(fmt)|; v < |c| && c[v] > 32
    ensures var k1 := k + |Quoted(key)|;
            && StringAt(c, k) == Some((key, k1))
            && SkipWs(c, k1) == k1 < |c| && c[k1] == COLON
            && SkipWs(c, k1 + 1) == k1 + |Colon(fmt)|
  {
    var k1 := k + |Quoted(key)|;
    HasTextSlice(c, k, Quoted(key));
    StringRoundTrip(c, k, key);
    HasTextFront(c, k1, Colon(fmt));
    SkipTo(c, k1, k1);
    SkipTo(c, k1 + 1, k1 + |Colon(fmt)|);
  }

  /** The parser is led from a key at `k` to a value at `v`. */
  ghost predicate KeyLeadsTo(c: seq<byte>, k: nat, key: seq<byte>, v: nat) {
    forall n: nat {:trigger Unfold(n)} :: Unfold(n) ==>
      && 0 !in key && StringAt(c, k).Some? && StringAt(c, k).value.0 == key
      && var k1 := SkipWs(c, StringAt(c, k).value.1);
         k1 < |c| && c[k1] == COLON && SkipWs(c, k1 + 1) == v
  }

  lemma MemberKey(c: seq<byte>, p: nat, m: Member, depth: nat, fmt: bool)
    requires 0 !in m.key && HasText(c, p, MemberLead(m.key, depth, fmt))
    requires HasText(c, p + |MemberLead(m.key, depth, fmt)|, PrintValue(m.value, depth, fmt))
    ensures KeyLeadsTo(c, p + Width(depth, fmt), m.key, p + |MemberLead(m.key, depth, fmt)|)
  {
    MemberLeadSplit(c, p, m.key, depth, fmt);
    FirstByteAt(c, p + |MemberLead(m.key, depth, fmt)|, m.value, depth, fmt);
    KeyRoundTrip(c, p + Width(depth, fmt), m.key, fmt);
  }

  lemma MemberTailMore(c: seq<byte>, z: nat, rest: seq<Member>, depth: nat, fmt: bool)
    requires rest != [] && HasText(c, z, MemberTail(true, fmt))
    requires HasText(c, z + |MemberTail(true, fmt)|, PrintMembers(rest, depth, fmt))
    ensures z < |c| && c[z] == COMMA && SkipWs(c, z) == z
    ensures SkipWs(c, z + 1) == z + |MemberTail(true, fmt)| + Width(depth, fmt)
  {
    var p := z + |MemberTail(true, fmt)|;
    MembersFirst(c, p, rest, depth, fmt);
    TailSkip(c, z, p + Width(depth, fmt), true, fmt);
  }

  /** What a placed member list says, and the way back. */
  lemma MembersOpened(c: seq<byte>, p: nat, e: nat, ms: seq<Member>, depth: nat, fmt: bool, d: nat)
    requires MembersPlaced(c, p, e, ms, depth, fmt, d)
    ensures depth > 0 && PrintableMembers(ms, d) && HasText(c, p, PrintMembers(ms, depth, fmt))
    ensures HasText(c, p + |PrintMembers(ms, depth, fmt)|, Closing(depth - 1, fmt))
    ensures e == p + |PrintMembers(ms, depth, fmt)| + |Closing(depth - 1, fmt)|
  {
    assert Unfold(0);
  }

  lemma MembersClosed(
      c: seq<byte>, p: nat, e: nat, ms: seq<Member>, depth: nat, fmt: bool, d: nat, text: seq<byte>)
    requires text == PrintMembers(ms, depth, fmt)
    requires depth > 0 && PrintableMembers(ms, d) && HasText(c, p, text)
    requires HasText(c, p + |text|, Closing(depth - 1, fmt)) && e == p + |text| + |Closing(depth - 1, fmt)|
    ensures MembersPlaced(c, p, e, ms, depth, fmt, d)
  {
  }

  /** The parts of a placed member list, and the rest of it placed again. */
  lemma MembersPlacedSplit(c: seq<byte>, p: nat, e: nat, ms: seq<Member>, depth: nat, fmt: bool, d: nat)
      returns (v: nat, z: nat, p': nat)
    requires ms != [] && MembersPlaced(c, p, e, ms, depth, fmt, d)
    ensures depth > 0 && 0 !in ms[0].key && Printable(ms[0].value, d)
    ensures v == p + |MemberLead(ms[0].key, depth, fmt)|
    ensures z == v + |PrintValue(ms[0].value, depth, fmt)|
    ensures p' == z + |MemberTail(|ms| > 1, fmt)|
    ensures HasText(c, p, MemberLead(ms[0].key, depth, fmt))
    ensures HasText(c, v, PrintValue(ms[0].value, depth, fmt))
    ensures HasText(c, z, MemberTail(|ms| > 1, fmt))
    ensures HasText(c, p', PrintMembers(ms[1..], depth, fmt))
    ensures MembersPlaced(c, p', e, ms[1..], depth, fmt, d)
  {
    v := p + |MemberLead(ms[0].key, depth, fmt)|;
    z := v + |PrintValue(ms[0].value, depth, fmt)|;
    p' := z + |MemberTail(|ms| > 1, fmt)|;
    MembersOpened(c, p, e, ms, depth, fmt, d);
    MembersSplit(c, p, ms, depth, fmt);
    MembersClosed(c, p', e, ms[1..], depth, fmt, d, PrintMembers(ms[1..], depth, fmt));
  }

  /** The first of several members: its key leads to its value, and then come a comma and the rest. */
  lemma NextMember(c: seq<byte>, p: nat, e: nat, ms: seq<Member>, depth: nat, fmt: bool, d: nat)
      returns (v: nat, z: nat, p': nat)
    requires |ms| > 1 && MembersPlaced(c, p, e, ms, depth, fmt, d)
    ensures KeyLeadsTo(c, p + Width(depth, fmt), ms[0].key, v)
    ensures ValuePlaced(c, v, z, ms[0].value, depth, fmt, d)
    ensures CommaLeadsTo(c, z, p' + Width(depth, fmt))
    ensures MembersPlaced(c, p', e, ms[1..], depth, fmt, d)
  {
    v, z, p' := MembersPlacedSplit(c, p, e, ms, depth, fmt, d);
    MemberKey(c, p, ms[0], depth, fmt);
    MemberTailMore(c, z, ms[1..], depth, fmt);
  }

  /** The parser is led from a comma at `q` to what follows at `z`. */
  ghost predicate CommaLeadsTo(c: seq<byte>, q: nat, z: nat) {
    forall n: nat {:trigger Unfold(n)} :: Unfold(n) ==>
      q < |c| && c[q] == COMMA && SkipWs(c, q) == q && SkipWs(c, q + 1) == z
  }

  lemma MemberTailLast(c: seq<byte>, z: nat, e: nat, depth: nat, fmt: bool)
    requires HasText(c, z, MemberTail(false, fmt))
    requires HasText(c, z + |MemberTail(false, fmt)|, Closing(depth, fmt))
    requires e == z + |MemberTail(false, fmt)| + |Closing(depth, fmt)|
    ensures SkipWs(c, z) + 1 == e <= |c| && c[e - 1] == RBRACE && Ends(c, z)
  {
    ClosingAt(c, z + |MemberTail(false, fmt)|, depth, fmt);
    TailSkip(c, z, e - 1, false, fmt);
  }

  /** The only member of a list: its key leads to its value, and then comes the brace. */
  lemma LastMember(c: seq<byte>, p: nat, e: nat, ms: seq<Member>, depth: nat, fmt: bool, d: nat)
      returns (v: nat, z: nat)
    requires |ms| == 1 && MembersPlaced(c, p, e, ms, depth, fmt, d)
    ensures KeyLeadsTo(c, p + Width(depth, fmt), ms[0].key, v)
    ensures ValuePlaced(c, v, z, ms[0].value, depth, fmt, d)
    ensures SkipWs(c, z) + 1 == e <= |c| && c[e - 1] == RBRACE
  {
    var p';
    v, z, p' := MembersPlacedSplit(c, p, e, ms, depth, fmt, d);
    MembersPlacedEnd(c, p', e, depth, fmt, d, ms[1..]);
    MemberTailLast(c, z, e, depth - 1, fmt);
    MemberKey(c, p, ms[0], depth, fmt);
  }

  lemma MembersPlacedEnd(c: seq<byte>, p: nat, e: nat, depth: nat, fmt: bool, d: nat, none: seq<Member>)
    requires none == [] && MembersPlaced(c, p, e, none, depth, fmt, d)
    ensures depth > 0 && HasText(c, p, Closing(depth - 1, fmt)) && e == p + |Closing(depth - 1, fmt)|
  {
    assert Unfold(0);
  }

  //
  // What the parser reads, folded in the same way, and one unfolding each of the parsers
  //

  ghost predicate ValueIs(c: seq<byte>, p: nat, d: nat, r: Option<(Json, nat)>) {
    forall n: nat {:trigger Unfold(n)} :: Unfold(n) ==> ParseValue(c, p, d) == r
  }

  ghost predicate ItemsAre(c: seq<byte>, p: nat, d: nat, r: Option<(seq<Json>, nat)>) {
    forall n: nat {:trigger Unfold(n)} :: Unfold(n) ==> ParseItems(c, p, d) == r
  }

  ghost predicate MembersAre(c: seq<byte>, p: nat, d: nat, r: Option<(seq<Member>, nat)>) {
    forall n: nat {:trigger Unfold(n)} :: Unfold(n) ==> ParseMembers(c, p, d) == r
  }

  lemma ItemsStep(c: seq<byte>, p: nat, q: nat, z: nat, e: nat, v: Json, rest: seq<Json>, d: nat)
    requires ValueIs(c, p, d, Some((v, q)))
    requires CommaLeadsTo(c, q, z)
    requires ItemsAre(c, z, d, Some((rest, e)))
    ensures ItemsAre(c, p, d, Some(([v] + rest, e)))
  {
    assert Unfold(0);
  }

  lemma ItemsLast(c: seq<byte>, p: nat, q: nat, v: Json, d: nat)
    requires ValueIs(c, p, d, Some((v, q)))
    requires q < |c| && SkipWs(c, q) == q && c[q] == RBRACKET
    ensures ItemsAre(c, p, d, Some(([v], q + 1)))
  {
    assert Unfold(0);
  }

  lemma MemberStep(c: seq<byte>, k: nat, v: nat, z: nat, m: Member, d: nat)
    requires KeyLeadsTo(c, k, m.key, v) && ValueIs(c, v, d, Some((m.value, z)))
    ensures ParseMember(c, k, d) == Some((m, SkipWs(c, z)))
  {
    assert Unfold(0);
  }

  lemma MembersStep(
      c: seq<byte>, k: nat, v: nat, q: nat, k': nat, e: nat, m: Member, rest: seq<Member>, d: nat)
    requires KeyLeadsTo(c, k, m.key, v) && ValueIs(c, v, d, Some((m.value, q)))
    requires CommaLeadsTo(c, q, k')
    requires MembersAre(c, k', d, Some((rest, e)))
    ensures MembersAre(c, k, d, Some(([m] + rest, e)))
  {
    MemberStep(c, k, v, q, m, d);
    assert Unfold(0);
  }

  lemma MembersLast(c: seq<byte>, k: nat, v: nat, z: nat, e: nat, m: Member, d: nat)
    requires KeyLeadsTo(c, k, m.key, v) && ValueIs(c, v, d, Some((m.value, z)))
    requires SkipWs(c, z) + 1 == e <= |c| && c[e - 1] == RBRACE
    ensures MembersAre(c, k, d, Some(([m], e)))
  {
    MemberStep(c, k, v, z, m, d);
    assert Unfold(0);
  }

  lemma ArrayStep(c: seq<byte>, off: nat, e: nat, items: seq<Json>, d: nat)
    requires d < NESTING_LIMIT && off + 1 < |c| && c[off] == LBRACKET && SkipWs(c, off + 1) == off + 1
    requires items == [] ==> c[off + 1] == RBRACKET && e == off + 2
    requires items != [] ==> c[off + 1] != RBRACKET && ItemsAre(c, off + 1, d + 1, Some((items, e)))
    ensures ValueIs(c, off, d, Some((Array(items), e)))
  {
    assert Unfold(0);
    NoLiteral(c, off);
  }

  lemma ObjectStep(c: seq<byte>, off: nat, e: nat, ms: seq<Member>, d: nat)
    requires d < NESTING_LIMIT && off < |c| && c[off] == LBRACE && SkipWs(c, off + 1) < |c|
    requires ms == [] ==> c[SkipWs(c, off + 1)] == RBRACE && e == SkipWs(c, off + 1) + 1
    requires ms != [] ==>
      c[SkipWs(c, off + 1)] != RBRACE && MembersAre(c, SkipWs(c, off + 1), d + 1, Some((ms, e)))
    ensures ValueIs(c, off, d, Some((Object(ms), e)))
  {
    assert Unfold(0);
    NoLiteral(c, off);
  }

  lemma Single<T>(s: seq<T>)
    requires |s| == 1
    ensures s == [s[0]] && s[1..] == []
  {
  }

  lemma Uncons<T>(s: seq<T>)
    requires s != []
    ensures s == [s[0]] + s[1..]
  {
  }

  //
  // The induction over trees
  //

  lemma OtherLiteral(c: seq<byte>, off: nat, lit: seq<byte>)
    requires off < |c| && lit != [] && c[off] != lit[0]
    ensures !HasText(c, off, lit)
  {
    assert !SameByte(c, off, lit, 0);
  }

  lemma NoLiteral(c: seq<byte>, off: nat)
    requires off < |c| && c[off] != 0x6E && c[off] != 0x66 && c[off] != 0x74
    ensures !HasText(c, off, NULL_TEXT) && !HasText(c, off, FALSE_TEXT) && !HasText(c, off, TRUE_TEXT)
  {
    OtherLiteral(c, off, NULL_TEXT);
    OtherLiteral(c, off, FALSE_TEXT);
    OtherLiteral(c, off, TRUE_TEXT);
  }

  lemma LeafRoundTrip(c: seq<byte>, off: nat, e: nat, t: Json, depth: nat, fmt: bool, d: nat)
    requires !t.Array? && !t.Object? && ValuePlaced(c, off, e, t, depth, fmt, d)
    ensures ValueIs(c, off, d, Some((t, e)))
  {
    assert Unfold(0);
    FirstByteAt(c, off, t, depth, fmt);
    match t
    case Null =>
    case False => OtherLiteral(c, off, NULL_TEXT);
    case True =>
      OtherLiteral(c, off, NULL_TEXT);
      OtherLiteral(c, off, FALSE_TEXT);
    case Number(n) =>
      NoLiteral(c, off);
      NumberRoundTrip(c, off, n);
    case String(s) =>
      NoLiteral(c, off);
      HasTextSlice(c, off, Quoted(s));
      StringRoundTrip(c, off, s);
  }

  /** At any place of any buffer, parsing a printed tree gives the tree back. */
  lemma {:induction false} ValueRoundTrip(
      c: seq<byte>, off: nat, e: nat, t: Json, depth: nat, fmt: bool, d: nat)
    requires ValuePlaced(c, off, e, t, depth, fmt, d)
    ensures ValueIs(c, off, d, Some((t, e)))
    decreases t, 1
  {
    match t
    case Array(items) => ArrayRoundTrip(c, off, e, items, depth, fmt, d);
    case Object(ms) => ObjectRoundTrip(c, off, e, ms, depth, fmt, d);
    case _ => LeafRoundTrip(c, off, e, t, depth, fmt, d);
  }

  lemma {:induction false} ArrayRoundTrip(
      c: seq<byte>, off: nat, e: nat, items: seq<Json>, depth: nat, fmt: bool, d: nat)
    requires ValuePlaced(c, off, e, Array(items), depth, fmt, d)
    ensures ValueIs(c, off, d, Some((Array(items), e)))
    decreases items, 1
  {
    ArraySplit(c, off, e, items, depth, fmt, d);
    if items == [] {
      SkipTo(c, off + 1, off + 1);
    } else {
      ItemsFirst(c, off + 1, e - 1, items, depth + 1, fmt, d + 1);
      ItemsRoundTrip(c, off + 1, e - 1, items, depth + 1, fmt, d + 1);
    }
    ArrayStep(c, off, e, items, d);
  }

  lemma {:induction false} ObjectRoundTrip(
      c: seq<byte>, off: nat, e: nat, ms: seq<Member>, depth: nat, fmt: bool, d: nat)
    requires ValuePlaced(c, off, e, Object(ms), depth, fmt, d)
    ensures ValueIs(c, off, d, Some((Object(ms), e)))
    decreases ms, 2
  {
    if ms == [] {
      EmptyObject(c, off, e, depth, fmt, d);
    } else {
      var p := ObjectParts(c, off, e, ms, depth, fmt, d);
      MembersRoundTrip(c, p, e, ms, depth + 1, fmt, d + 1);
    }
    ObjectStep(c, off, e, ms, d);
  }

  lemma {:induction false} ItemsRoundTrip(
      c: seq<byte>, p: nat, e: nat, items: seq<Json>, depth: nat, fmt: bool, d: nat)
    requires items != [] && ItemsPlaced(c, p, e, items, depth, fmt, d)
    ensures ItemsAre(c, p, d, Some((items, e + 1)))
    decreases items, 0
  {
    if |items| == 1 {
      LastItem(c, p, e, items, depth, fmt, d);
      ValueRoundTrip(c, p, e, items[0], depth, fmt, d);
      ItemsLast(c, p, e, items[0], d);
      Single(items);
    } else {
      var q, z := NextItem(c, p, e, items, depth, fmt, d);
      ValueRoundTrip(c, p, q, items[0], depth, fmt, d);
      ItemsRoundTrip(c, z, e, items[1..], depth, fmt, d);
      ItemsStep(c, p, q, z, e + 1, items[0], items[1..], d);
      Uncons(items);
    }
  }

  lemma {:induction false} MembersRoundTrip(
      c: seq<byte>, p: nat, e: nat, ms: seq<Member>, depth: nat, fmt: bool, d: nat)
    requires ms != [] && MembersPlaced(c, p, e, ms, depth, fmt, d)
    ensures MembersAre(c, p + Width(depth, fmt), d, Some((ms, e)))
    decreases ms, 1
  {
    if |ms| == 1 {
      OneMemberRoundTrip(c, p, e, ms, depth, fmt, d);
    } else {
      var v, z, p' := NextMember(c, p, e, ms, depth, fmt, d);
      ValueRoundTrip(c, v, z, ms[0].value, depth, fmt, d);
      MembersRoundTrip(c, p', e, ms[1..], depth, fmt, d);
      MembersStep(c, p + Width(depth, fmt), v, z, p' + Width(depth, fmt), e, ms[0], ms[1..], d);
      Uncons(ms);
    }
  }

  lemma {:induction false} OneMemberRoundTrip(
      c: seq<byte>, p: nat, e: nat, ms: seq<Member>, depth: nat, fmt: bool, d: nat)
    requires |ms| == 1 && MembersPlaced(c, p, e, ms, depth, fmt, d)
    ensures MembersAre(c, p + Width(depth, fmt), d, Some((ms, e)))
    decreases ms, 0
  {
    var v, z := LastMember(c, p, e, ms, depth, fmt, d);
    ValueRoundTrip(c, v, z, ms[0].value, depth, fmt, d);
    MembersLast(c, p + Width(depth, fmt), v, z, e, ms[0], d);
    Single(ms);
  }

  /**
    Whole texts: `cJSON_Parse` of what `cJSON_Print` or `cJSON_PrintUnformatted` wrote, followed by
    any blanks (the policy writer appends a newline), is the tree that was printed.
   */
  lemma RoundTrip(t: Json, fmt: bool, blanks: seq<byte>)
    requires NulFree(t) && RecoverableOnly(t) && Nesting(t) <= NESTING_LIMIT
    requires forall i :: 0 <= i < |blanks| ==> blanks[i] <= 32
    ensures Parse(PrintValue(t, 0, fmt) + blanks) == Some(t)
  {
    var text := PrintValue(t, 0, fmt);
    var c := text + blanks + [0];
    PrintValueFirst(t, 0, fmt);
    assert c[0] == text[0];
    assert BomEnd(c) == 0 by {
      if |c| > 4 {
        assert c[..3][0] == c[0];
      }
    }
    SkipTo(c, 0, 0);
    HasTextSlice(c, 0, text);
    assert Ends(c, |text|);
    PrintableWhen(t, 0);
    ValueRoundTrip(c, 0, |text|, t, 0, fmt, 0);
    assert Unfold(0);
  }

  /** A policy text of recoverable numbers survives being parsed, printed and parsed again. */
  lemma ReprintKeepsMeaning(text: seq<byte>, fmt: bool)
    requires Parse(text).Some? && RecoverableOnly(Parse(text).value)
    ensures Parse(PrintValue(Parse(text).value, 0, fmt)) == Parse(text)
  {
    var t := Parse(text).value;
    var c := text + [0];
    ParsedValueBounded(c, SkipWs(c, BomEnd(c)), 0);
    RoundTrip(t, fmt, []);
    assert PrintValue(t, 0, fmt) + [] == PrintValue(t, 0, fmt);
  }
}
