/**
  How much a text can grow when it is parsed and printed again: indentation is what grows most, and
  the nesting limit bounds it. A text of 4 MiB never grows past what an `int` can measure.
 */
module JsonSize {
  import opened Base
  import opened JsonText
  import opened JsonNumber
  import opened JsonTree

  /** Printed bytes per byte of the text that was parsed. */
  const GROWTH: nat := 410

  const MIB: nat := 1024 * 1024

  /** A bound on the length of the printed tree at any depth that the nesting limit allows. */
  function Weight(t: Json): (w: nat)
    decreases t, 1
  {
    match t
    case Null | True => 4
    case False => 5
    case Number(_) => NUMBER_BUFFER
    case String(s) => |Quoted(s)|
    case Array(items) => 2 + ItemsWeight(items)
    case Object(ms) => NESTING_LIMIT + 3 + MembersWeight(ms)
  }

  function ItemsWeight(items: seq<Json>): (w: nat)
    decreases items, 0
  {
    if items == [] then 0 else Weight(items[0]) + 2 + ItemsWeight(items[1..])
  }

  function MembersWeight(ms: seq<Member>): (w: nat)
    decreases ms, 0
  {
    if ms == [] then 0 else KeyWeight(ms[0].key) + Weight(ms[0].value) + MembersWeight(ms[1..])
  }

  /** Indentation, key, colon and what follows a member. */
  function KeyWeight(key: seq<byte>): (w: nat) { NESTING_LIMIT + |Quoted(key)| + 4 }

  //
  // The weight bounds the printed text
  //

  lemma {:induction false} PrintWithin(t: Json, d: nat, fmt: bool)
    requires Printable(t, d) && d <= NESTING_LIMIT
    ensures |PrintValue(t, d, fmt)| <= Weight(t)
    decreases t, 1
  {
    match t
    case Number(n) => NumberTextLength(n);
    case Array(items) => PrintItemsWithin(items, d + 1, fmt);
    case Object(ms) => PrintMembersWithin(ms, d + 1, fmt);
    case _ =>
  }

  lemma {:induction false} PrintItemsWithin(items: seq<Json>, d: nat, fmt: bool)
    requires PrintableItems(items, d) && d <= NESTING_LIMIT
    ensures |PrintItems(items, d, fmt)| <= ItemsWeight(items)
    decreases items, 0
  {
    if items != [] {
      PrintWithin(items[0], d, fmt);
      PrintItemsWithin(items[1..], d, fmt);
    }
  }

  lemma {:induction false} PrintMembersWithin(ms: seq<Member>, d: nat, fmt: bool)
    requires PrintableMembers(ms, d) && d <= NESTING_LIMIT
    ensures |PrintMembers(ms, d, fmt)| <= MembersWeight(ms)
    decreases ms, 0
  {
    if ms != [] {
      PrintWithin(ms[0].value, d, fmt);
      PrintMembersWithin(ms[1..], d, fmt);
    }
  }

  //
  // The parsed text bounds the weight
  //

  lemma {:induction false} CStrLength(s: seq<byte>)
    ensures |CStr(s)| <= |s|
  {
    if s != [] && s[0] != 0 {
      CStrLength(s[1..]);
    }
  }

  lemma {:induction false} QuotedLength(s: seq<byte>)
    ensures |Quoted(s)| <= 6 * |s| + 2
  {
    if s != [] {
      QuotedLength(s[..|s| - 1]);
    }
  }

  /** A literal's text is quoted again in at most six bytes for each of its own. */
  lemma StringGrowth(c: seq<byte>, off: nat)
    requires StringAt(c, off).Some?
    ensures |Quoted(CStr(StringAt(c, off).value.0))| <= 6 * (StringAt(c, off).value.1 - off - 2) + 2
  {
    var s := StringAt(c, off).value.0;
    PassTwoFits(c, off + 1, FindEnd(c, off + 1).value);
    CStrLength(s);
    QuotedLength(CStr(s));
  }

  lemma {:induction false} ValueGrowth(c: seq<byte>, off: nat, depth: nat)
    requires ParseValue(c, off, depth).Some?
    ensures var v := ParseValue(c, off, depth).value;
            Weight(v.0) + 2 <= GROWTH * (v.1 - off + 1)
    decreases |c| - off, 2
  {
    var t := ParseValue(c, off, depth).value.0;
    match t
    case String(_) => StringGrowth(c, off);
    case Array(items) =>
      if items != [] {
        ItemsGrowth(c, SkipWs(c, off + 1), depth + 1);
      }
    case Object(ms) =>
      if ms != [] {
        MembersGrowth(c, SkipWs(c, off + 1), depth + 1);
      }
    case _ =>
  }

  lemma {:induction false} ItemsGrowth(c: seq<byte>, p: nat, depth: nat)
    requires ParseItems(c, p, depth).Some?
    ensures var v := ParseItems(c, p, depth).value;
            ItemsWeight(v.0) <= GROWTH * (v.1 - p)
    decreases |c| - p, 3
  {
    var ts := ParseItems(c, p, depth).value.0;
    ValueGrowth(c, p, depth);
    var q := SkipWs(c, ParseValue(c, p, depth).value.1);
    if c[q] == COMMA {
      ItemsGrowth(c, SkipWs(c, q + 1), depth);
      assert ts[1..] == ParseItems(c, SkipWs(c, q + 1), depth).value.0;
    } else {
      assert ts[1..] == [];
    }
  }

  /** Where the parts of a member stand. */
  lemma MemberParts(c: seq<byte>, p: nat, depth: nat) returns (s: nat, a: nat)
    requires ParseMember(c, p, depth).Some?
    ensures StringAt(c, p).Some? && s == StringAt(c, p).value.1 && s < a && ParseValue(c, a, depth).Some?
    ensures var m := ParseMember(c, p, depth).value;
            && m.0 == Member(CStr(StringAt(c, p).value.0), ParseValue(c, a, depth).value.0)
            && ParseValue(c, a, depth).value.1 <= m.1
  {
    s := StringAt(c, p).value.1;
    a := SkipWs(c, SkipWs(c, s) + 1);
  }

  lemma {:induction false} MemberGrowth(c: seq<byte>, p: nat, depth: nat)
    requires ParseMember(c, p, depth).Some?
    ensures var v := ParseMember(c, p, depth).value;
            KeyWeight(v.0.key) + Weight(v.0.value) + 226 <= GROWTH * (v.1 + 1 - p)
    decreases |c| - p, 3
  {
    var s, a := MemberParts(c, p, depth);
    StringGrowth(c, p);
    ValueGrowth(c, a, depth);
  }

  lemma {:induction false} MembersGrowth(c: seq<byte>, p: nat, depth: nat)
    requires ParseMembers(c, p, depth).Some?
    ensures var v := ParseMembers(c, p, depth).value;
            MembersWeight(v.0) + 226 <= GROWTH * (v.1 - p)
    decreases |c| - p, 4
  {
    MemberGrowth(c, p, depth);
    var m := ParseMember(c, p, depth).value;
    var ms := ParseMembers(c, p, depth).value.0;
    if c[m.1] == COMMA {
      MembersGrowth(c, SkipWs(c, m.1 + 1), depth);
      assert ms[1..] == ParseMembers(c, SkipWs(c, m.1 + 1), depth).value.0;
    } else {
      assert ms[1..] == [];
    }
  }

  /** A parsed text weighs at most `GROWTH` times its length. */
  lemma TextGrowth(text: seq<byte>)
    requires Parse(text).Some?
    ensures Weight(Parse(text).value) <= GROWTH * (|text| + 2)
  {
    var c := text + [0];
    ValueGrowth(c, SkipWs(c, BomEnd(c)), 0);
  }

  /** Parsed and printed again, a text of at most 4 MiB is short enough for the print buffer. */
  lemma ReprintFits(text: seq<byte>, fmt: bool)
    requires Parse(text).Some? && RecoverableOnly(Parse(text).value)
    ensures |PrintValue(Parse(text).value, 0, fmt)| <= GROWTH * (|text| + 2)
    ensures |text| <= 4 * MIB ==> |PrintValue(Parse(text).value, 0, fmt)| + 2 <= INT32_MAX
  {
    var c := text + [0];
    ParsedValueBounded(c, SkipWs(c, BomEnd(c)), 0);
    PrintableWhen(Parse(text).value, 0);
    PrintWithin(Parse(text).value, 0, fmt);
    TextGrowth(text);
  }
}
