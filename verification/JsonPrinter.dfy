/**
  The printer: a growing byte buffer that the `print_*` routines write in place. A routine may
  leave its last bytes pending behind `offset`, ended by a NUL, for `update_offset` to find; the
  contracts say so. Every store is proved to fall inside the buffer that `ensure` provided.
 */
module JsonPrinter {
  import opened Base
  import opened JsonText
  import opened JsonNumber
  import opened JsonTree

  const DEFAULT_BUFFER_SIZE: nat := 256

  /** The escaped form of a first part is no longer than that of the whole. */
  lemma {:induction false} EscapeGrows(s: seq<byte>, n: nat)
    requires n <= |s|
    ensures |Escape(s[..n])| <= |Escape(s)|
    decreases |s|
  {
    if n == |s| {
      assert s[..n] == s;
    } else {
      var init := s[..|s| - 1];
      assert init[..n] == s[..n];
      EscapeGrows(init, n);
    }
  }

  lemma ObjectLength(ms: seq<Member>, depth: nat, fmt: bool)
    ensures |PrintValue(Object(ms), depth, fmt)|
         == |Opening(fmt)| + |PrintMembers(ms, depth + 1, fmt)| + |Closing(depth, fmt)|
  {
  }

  /** `text` and the members from `i` on make up `goal`. Kept folded; `Unfold(0)` opens it. */
  ghost predicate MembersLeft(text: seq<byte>, ms: seq<Member>, i: nat, depth: nat, fmt: bool, goal: seq<byte>) {
    forall n: nat {:trigger Unfold(n)} :: Unfold(n) ==>
      && i <= |ms| && NulFreeMembers(ms[i..]) && RecoverableOnlyMembers(ms[i..])
      && text + PrintMembers(ms[i..], depth, fmt) == goal
  }

  lemma MembersStart(text: seq<byte>, ms: seq<Member>, depth: nat, fmt: bool)
    requires NulFreeMembers(ms) && RecoverableOnlyMembers(ms)
    ensures MembersLeft(text, ms, 0, depth, fmt, text + PrintMembers(ms, depth, fmt))
  {
    assert ms[0..] == ms;
  }

  lemma MembersEnd(text: seq<byte>, ms: seq<Member>, depth: nat, fmt: bool, goal: seq<byte>)
    requires MembersLeft(text, ms, |ms|, depth, fmt, goal)
    ensures text == goal
  {
    assert Unfold(0);
    assert text + [] == text;
  }

  class PrintBuffer {
    var buffer: array<byte>
    var offset: nat
    var depth: nat
    const format: bool

    ghost predicate Valid()
      reads this
    {
      offset < buffer.Length <= INT32_MAX
    }

    /** What has been printed so far. */
    ghost function Text(): (t: seq<byte>)
      reads this, buffer
      requires Valid()
    {
      buffer[..offset]
    }

    /** `text` follows what was printed before, part of it perhaps still behind `offset`. */
    ghost predicate Pending(before: seq<byte>, text: seq<byte>)
      reads this, buffer
    {
      var e := |before| + |text|;
      && |before| <= offset <= e < buffer.Length
      && buffer[..e] == before + text
      && buffer[e] == 0
    }

    constructor (format: bool)
      ensures Valid() && fresh(buffer) && Text() == [] && depth == 0 && this.format == format
    {
      buffer := new byte[DEFAULT_BUFFER_SIZE];
      offset := 0;
      depth := 0;
      this.format := format;
    }

    /** `ensure`: room for `needed` more bytes and one beyond, growing the buffer if it must. */
    method Ensure(needed: nat) returns (ok: bool)
      requires Valid()
      modifies this`buffer
      ensures Valid() && Text() == old(Text())
      ensures buffer == old(buffer) || fresh(buffer)
      ensures ok ==> offset + needed + 1 <= buffer.Length
      ensures offset + needed + 1 <= INT32_MAX ==> ok
    {
      if needed > INT32_MAX {
        return false;
      }
      var total := needed + offset + 1;
      if total <= buffer.Length {
        return true;
      }
      var newSize;
      if total > INT32_MAX / 2 {
        if total <= INT32_MAX {
          newSize := INT32_MAX;
        } else {
          return false;
        }
      } else {
        newSize := total * 2;
      }
      var grown := new byte[newSize];
      var i := 0;
      while i <= offset
        invariant 0 <= i <= offset + 1 && buffer == old(buffer)
        invariant grown[..i] == buffer[..i]
      {
        grown[i] := buffer[i];
        i := i + 1;
      }
      assert grown[..offset] == grown[..i][..offset] == buffer[..offset];
      buffer := grown;
      ok := true;
    }

    /** Stores bytes at a place, one after the other. */
    method Store(at: nat, bytes: seq<byte>)
      requires at + |bytes| <= buffer.Length
      modifies buffer
      ensures buffer[..at + |bytes|] == old(buffer[..at]) + bytes
    {
      var i := 0;
      while i < |bytes|
        invariant 0 <= i <= |bytes|
        invariant buffer[..at + i] == old(buffer[..at]) + bytes[..i]
      {
        buffer[at + i] := bytes[i];
        i := i + 1;
      }
      assert bytes[..i] == bytes;
    }

    /** Reserve, store and move `offset`: how separators, brackets and indentation are written. */
    method Append(bytes: seq<byte>, needed: nat) returns (ok: bool)
      requires Valid() && |bytes| <= needed
      modifies this`buffer, this`offset, buffer
      ensures Valid() && (buffer == old(buffer) || fresh(buffer))
      ensures ok ==> Text() == old(Text()) + bytes
      ensures old(offset) + needed + 1 <= INT32_MAX ==> ok
    {
      ok := Ensure(needed);
      if ok {
        Store(offset, bytes);
        offset := offset + |bytes|;
      }
    }

    /** Reserve and store a NUL-terminated text without moving `offset`. */
    method Put(text: seq<byte>, needed: nat) returns (ok: bool)
      requires Valid() && |text| + 1 <= needed
      modifies this`buffer, buffer
      ensures Valid() && (buffer == old(buffer) || fresh(buffer))
      ensures ok ==> Pending(old(Text()), text)
      ensures old(offset) + needed + 1 <= INT32_MAX ==> ok
    {
      ok := Ensure(needed);
      if ok {
        Store(offset, text);
        buffer[offset + |text|] := 0;
      }
    }

    /** The closing bracket or brace of a container whose whole text is `text`. */
    method Close(closing: seq<byte>, needed: nat, ghost before: seq<byte>, ghost text: seq<byte>)
        returns (ok: bool)
      requires Valid() && |closing| + 1 <= needed && depth > 0
      requires |before| <= offset && Text() + closing == before + text
      modifies this`buffer, this`depth, buffer
      ensures Valid() && (buffer == old(buffer) || fresh(buffer))
      ensures ok ==> depth == old(depth) - 1 && Pending(before, text)
      ensures old(offset) + needed + 1 <= INT32_MAX ==> ok
    {
      ghost var sofar := Text();
      ok := Put(closing, needed);
      if ok {
        LengthOfParts(sofar, closing, before + text);
        depth := depth - 1;
      }
    }

    /** `update_offset`: on to the terminating NUL. */
    method UpdateOffset(ghost before: seq<byte>, ghost text: seq<byte>)
      requires Valid() && Pending(before, text) && 0 !in text
      modifies this`offset
      ensures Valid() && Text() == before + text
    {
      ghost var e := |before| + |text|;
      assert forall i :: offset <= i < e ==> buffer[i] == (before + text)[i];
      while buffer[offset] != 0
        invariant |before| <= offset <= e
        invariant forall i :: offset <= i < e ==> buffer[i] != 0
        decreases e - offset
      {
        offset := offset + 1;
      }
    }

    /** First loop of `print_string_ptr`: how many extra bytes the escapes take. */
    static method CountEscapes(s: seq<byte>) returns (extra: nat)
      ensures extra == EscapeExtras(s)
    {
      extra := 0;
      var i := 0;
      while i < |s|
        invariant 0 <= i <= |s| && extra == EscapeExtras(s[..i])
      {
        assert s[..i + 1][..i] == s[..i];
        extra := extra + EscapeExtra(s[i]);
        i := i + 1;
      }
      assert s[..i] == s;
    }

    /** The copy loop of `print_string_ptr`. */
    method StoreEscaped(s: seq<byte>, at: nat)
      requires at + |Escape(s)| <= buffer.Length
      modifies buffer
      ensures buffer[..at + |Escape(s)|] == old(buffer[..at]) + Escape(s)
    {
      var out := at;
      var i := 0;
      while i < |s|
        invariant 0 <= i <= |s| && out == at + |Escape(s[..i])| <= buffer.Length
        invariant buffer[..out] == old(buffer[..at]) + Escape(s[..i])
      {
        assert s[..i + 1][..i] == s[..i];
        EscapeGrows(s, i + 1);
        Store(out, EscapeByte(s[i]));
        Assoc(old(buffer[..at]), Escape(s[..i]), EscapeByte(s[i]));
        out := out + |EscapeByte(s[i])|;
        i := i + 1;
      }
      assert s[..i] == s;
    }

    /** `print_string_ptr`. */
    method PrintString(s: seq<byte>) returns (ok: bool)
      requires Valid() && 0 !in s
      modifies this`buffer, buffer
      ensures Valid() && (buffer == old(buffer) || fresh(buffer))
      ensures ok ==> Pending(old(Text()), Quoted(s))
      ensures old(offset) + |Quoted(s)| + 2 <= INT32_MAX ==> ok
    {
      var extra := CountEscapes(s);
      var length := |s| + extra;
      EscapeLength(s);
      ok := Ensure(length + 3);
      if !ok {
        return;
      }
      StoreQuoted(s, length);
    }

    /** The quotes, the escaped text and the terminator, in room that is already there. */
    method StoreQuoted(s: seq<byte>, length: nat)
      requires Valid() && 0 !in s && length == |Escape(s)| && offset + length + 3 <= buffer.Length
      modifies buffer
      ensures Valid() && Pending(old(Text()), Quoted(s))
    {
      ghost var before := buffer[..offset];
      Store(offset, [QUOTE]);
      StoreEscaped(s, offset + 1);
      Store(offset + 1 + length, [QUOTE]);
      buffer[offset + length + 2] := 0;
      Assoc(before + [QUOTE], Escape(s), [QUOTE]);
      Assoc(before, [QUOTE], Escape(s) + [QUOTE]);
    }

    /**
      `print_number`: the text is made in a buffer of its own and copied, with a NUL, and `offset`
      moved past it.
     */
    method PrintNumber(n: Decimal) returns (ok: bool)
      requires Valid() && Recoverable(n)
      modifies this`buffer, this`offset, buffer
      ensures Valid() && (buffer == old(buffer) || fresh(buffer))
      ensures ok ==> Pending(old(Text()), NumberText(n))
      ensures old(offset) + |NumberText(n)| + 2 <= INT32_MAX ==> ok
    {
      NumberTextLength(n);
      var text := NumberText(n);
      if |text| > NUMBER_BUFFER - 1 {
        return false;
      }
      ok := Put(text, |text| + 1);
      if ok {
        offset := offset + |text|;
      }
    }

    /** `print_value`. */
    method PrintItem(t: Json) returns (ok: bool)
      requires Valid() && NulFree(t) && RecoverableOnly(t)
      modifies this`buffer, this`offset, this`depth, buffer
      ensures Valid() && (buffer == old(buffer) || fresh(buffer))
      ensures ok ==> depth == old(depth) && Pending(old(Text()), PrintValue(t, old(depth), format))
      ensures old(offset) + |PrintValue(t, old(depth), format)| + 2 <= INT32_MAX ==> ok
      decreases t, 2
    {
      match t
      case Null => ok := Put(NULL_TEXT, 5);
      case False => ok := Put(FALSE_TEXT, 6);
      case True => ok := Put(TRUE_TEXT, 5);
      case Number(n) => ok := PrintNumber(n);
      case String(s) => ok := PrintString(s);
      case Array(items) => ok := PrintArray(items);
      case Object(ms) => ok := PrintObject(ms);
    }

    /** Print a value and move `offset` behind it. */
    method PrintAndUpdate(t: Json) returns (ok: bool)
      requires Valid() && NulFree(t) && RecoverableOnly(t)
      modifies this`buffer, this`offset, this`depth, buffer
      ensures Valid() && (buffer == old(buffer) || fresh(buffer))
      ensures ok ==> depth == old(depth) && Text() == old(Text()) + PrintValue(t, old(depth), format)
      ensures old(offset) + |PrintValue(t, old(depth), format)| + 2 <= INT32_MAX ==> ok
      decreases t, 3
    {
      ghost var before := Text();
      ghost var text := PrintValue(t, depth, format);
      ok := PrintItem(t);
      if ok {
        PrintHasNoNul(t, old(depth), format);
        UpdateOffset(before, text);
      }
    }

    /** `print_array`. */
    method PrintArray(items: seq<Json>) returns (ok: bool)
      requires Valid() && NulFreeItems(items) && RecoverableOnlyItems(items)
      modifies this`buffer, this`offset, this`depth, buffer
      ensures Valid() && (buffer == old(buffer) || fresh(buffer))
      ensures ok ==>
        depth == old(depth) && Pending(old(Text()), PrintValue(Array(items), old(depth), format))
      ensures old(offset) + |PrintValue(Array(items), old(depth), format)| + 2 <= INT32_MAX ==> ok
      decreases items, 1
    {
      ghost var before := Text();
      ok := Append([LBRACKET], 1);
      if !ok {
        return;
      }
      depth := depth + 1;
      ok := PrintItemList(items);
      if !ok {
        return;
      }
      Reassoc(before, [LBRACKET], PrintItems(items, depth, format), [RBRACKET]);
      ok := Close([RBRACKET], 2, before, PrintValue(Array(items), depth - 1, format));
    }

    /** The element loop of `print_array`. */
    method PrintItemList(items: seq<Json>) returns (ok: bool)
      requires Valid() && NulFreeItems(items) && RecoverableOnlyItems(items)
      modifies this`buffer, this`offset, this`depth, buffer
      ensures Valid() && (buffer == old(buffer) || fresh(buffer))
      ensures ok ==> depth == old(depth) && Text() == old(Text()) + PrintItems(items, depth, format)
      ensures old(offset) + |PrintItems(items, old(depth), format)| + 3 <= INT32_MAX ==> ok
      decreases items, 0
    {
      var i := 0;
      ghost var before := Text();
      ghost var whole := PrintItems(items, depth, format);
      assert items[0..] == items;
      while i < |items|
        invariant 0 <= i <= |items| && Valid() && depth == old(depth)
        invariant buffer == old(buffer) || fresh(buffer)
        invariant NulFreeItems(items[i..]) && RecoverableOnlyItems(items[i..])
        invariant Text() + PrintItems(items[i..], depth, format) == before + whole
      {
        assert items[i..][0] == items[i] && items[i..][1..] == items[i + 1..];
        ghost var sofar := Text();
        ghost var first := PrintValue(items[i], depth, format);
        ghost var rest := PrintItems(items[i + 1..], depth, format);
        ghost var sep := if i + 1 < |items| then Separator(format) else [];
        LengthOfParts(sofar, first + sep + rest, before + whole);
        ok := PrintAndUpdate(items[i]);
        if !ok {
          return;
        }
        if i + 1 < |items| {
          var separator := Separator(format);
          ok := Append(separator, |separator| + 1);
          if !ok {
            return;
          }
        }
        Reassoc(sofar, first, sep, rest);
        i := i + 1;
      }
      ok := true;
      assert items[i..] == [];
      assert Text() + [] == Text();
    }

    /** `print_object`. */
    method PrintObject(ms: seq<Member>) returns (ok: bool)
      requires Valid() && NulFreeMembers(ms) && RecoverableOnlyMembers(ms)
      modifies this`buffer, this`offset, this`depth, buffer
      ensures Valid() && (buffer == old(buffer) || fresh(buffer))
      ensures ok ==>
        depth == old(depth) && Pending(old(Text()), PrintValue(Object(ms), old(depth), format))
      ensures old(offset) + |PrintValue(Object(ms), old(depth), format)| + 2 <= INT32_MAX ==> ok
      decreases ms, 2
    {
      ghost var before := Text();
      ObjectLength(ms, depth, format);
      var opening := Opening(format);
      ok := Append(opening, |opening| + 1);
      if !ok {
        return;
      }
      depth := depth + 1;
      ok := PrintMemberList(ms);
      if !ok {
        return;
      }
      ok := CloseObject(ms, before);
    }

    /** The brace that ends an object, behind its members. */
    method CloseObject(ms: seq<Member>, ghost before: seq<byte>) returns (ok: bool)
      requires Valid() && depth > 0 && Text() == before + Opening(format) + PrintMembers(ms, depth, format)
      modifies this`buffer, this`depth, buffer
      ensures Valid() && (buffer == old(buffer) || fresh(buffer))
      ensures ok ==>
        depth == old(depth) - 1 && Pending(before, PrintValue(Object(ms), old(depth) - 1, format))
      ensures |before| + |PrintValue(Object(ms), old(depth) - 1, format)| + 2 <= INT32_MAX ==> ok
    {
      var closing := Closing(depth - 1, format);
      Reassoc(before, Opening(format), PrintMembers(ms, depth, format), closing);
      ok := Close(closing, if format then depth + 1 else 2,
                  before, PrintValue(Object(ms), depth - 1, format));
    }

    /** The member loop of `print_object`. */
    method PrintMemberList(ms: seq<Member>) returns (ok: bool)
      requires Valid() && NulFreeMembers(ms) && RecoverableOnlyMembers(ms)
      modifies this`buffer, this`offset, this`depth, buffer
      ensures Valid() && (buffer == old(buffer) || fresh(buffer))
      ensures ok ==> depth == old(depth) && Text() == old(Text()) + PrintMembers(ms, depth, format)
      ensures old(offset) + |PrintMembers(ms, old(depth), format)| + 3 <= INT32_MAX ==> ok
      decreases ms, 1
    {
      var i := 0;
      ghost var before := Text();
      ghost var goal := before + PrintMembers(ms, depth, format);
      MembersStart(before, ms, depth, format);
      while i < |ms|
        invariant 0 <= i <= |ms| && Valid() && depth == old(depth)
        invariant buffer == old(buffer) || fresh(buffer)
        invariant MembersLeft(Text(), ms, i, depth, format, goal)
      {
        ok := PrintMemberAt(ms, i, goal);
        if !ok {
          return;
        }
        i := i + 1;
      }
      ok := true;
      MembersEnd(Text(), ms, depth, format, goal);
    }

    /** One round of that loop: a member, and what separates it from the next. */
    method PrintMemberAt(ms: seq<Member>, i: nat, ghost goal: seq<byte>) returns (ok: bool)
      requires i < |ms| && Valid() && MembersLeft(Text(), ms, i, depth, format, goal)
      modifies this`buffer, this`offset, this`depth, buffer
      ensures Valid() && (buffer == old(buffer) || fresh(buffer))
      ensures ok ==> depth == old(depth) && MembersLeft(Text(), ms, i + 1, depth, format, goal)
      ensures |goal| + 3 <= INT32_MAX ==> ok
      decreases ms, 0
    {
      assert Unfold(0);
      assert ms[i..][0] == ms[i] && ms[i..][1..] == ms[i + 1..];
      ghost var sofar := Text();
      ghost var first := MemberLead(ms[i].key, depth, format) + PrintValue(ms[i].value, depth, format);
      ghost var rest := PrintMembers(ms[i + 1..], depth, format);
      var tail := MemberTail(i + 1 < |ms|, format);
      LengthOfParts(sofar, first + tail + rest, goal);
      ok := PrintMember(ms[i]);
      if !ok {
        return;
      }
      ok := Append(tail, |tail| + 1);
      if !ok {
        return;
      }
      Reassoc(sofar, first, tail, rest);
    }

    /** Indentation, key, colon and value of one member. */
    method PrintMember(m: Member) returns (ok: bool)
      requires Valid() && 0 !in m.key && NulFree(m.value) && RecoverableOnly(m.value)
      modifies this`buffer, this`offset, this`depth, buffer
      ensures Valid() && (buffer == old(buffer) || fresh(buffer))
      ensures ok ==> depth == old(depth)
                     && Text() == old(Text()) + (MemberLead(m.key, depth, format)
                                                 + PrintValue(m.value, depth, format))
      ensures (old(offset) + |MemberLead(m.key, old(depth), format)|
               + |PrintValue(m.value, old(depth), format)| + 2 <= INT32_MAX) ==> ok
      decreases m, 4
    {
      ghost var before := Text();
      ghost var lead := MemberLead(m.key, depth, format);
      ok := PrintKey(m.key);
      if !ok {
        return;
      }
      ok := PrintAndUpdate(m.value);
      if ok {
        Assoc(before, lead, PrintValue(m.value, depth, format));
      }
    }

    /** Indentation, key and colon. */
    method PrintKey(key: seq<byte>) returns (ok: bool)
      requires Valid() && 0 !in key
      modifies this`buffer, this`offset, buffer
      ensures Valid() && (buffer == old(buffer) || fresh(buffer))
      ensures ok ==> Text() == old(Text()) + MemberLead(key, depth, format)
      ensures old(offset) + |MemberLead(key, depth, format)| + 1 <= INT32_MAX ==> ok
    {
      ghost var before := Text();
      if format {
        ok := Append(Tabs(depth), depth);
        if !ok {
          return;
        }
      }
      ghost var indent := Indent(depth, format);
      assert Text() == before + indent;
      ok := PrintString(key);
      if !ok {
        return;
      }
      QuotedHasNoNul(key);
      UpdateOffset(before + indent, Quoted(key));
      var colon := Colon(format);
      ok := Append(colon, |colon|);
      if ok {
        Assoc(before, indent, Quoted(key));
        Assoc(before, indent + Quoted(key), colon);
      }
    }
  }

  lemma Reassoc(sofar: seq<byte>, first: seq<byte>, sep: seq<byte>, rest: seq<byte>)
    ensures sofar + first + sep + rest == sofar + (first + sep + rest)
    ensures sofar + first + [] == sofar + first
  {
  }

  lemma LengthOfParts(a: seq<byte>, b: seq<byte>, whole: seq<byte>)
    requires a + b == whole
    ensures |a| + |b| == |whole|
  {
  }

  /**
    `print`: the text of the tree, or nothing when it would not fit the largest buffer the printer
    supports.
   */
  method Print(t: Json, format: bool) returns (r: Option<seq<byte>>)
    requires NulFree(t) && RecoverableOnly(t)
    ensures r.Some? ==> r.value == PrintValue(t, 0, format)
    ensures |PrintValue(t, 0, format)| + 2 <= INT32_MAX ==> r.Some?
  {
    var p := new PrintBuffer(format);
    var ok := p.PrintAndUpdate(t);
    if ok {
      r := Some(p.buffer[..p.offset]);
    } else {
      r := None;
    }
  }
}
