/**
  The byte-by-byte parser: a buffer with an offset and a nesting depth that the `parse_*` routines
  move in place. Every routine is proved to compute the function of JsonTree it is named after,
  to stay inside the buffer and to terminate.
 */
module JsonParser {
  import opened Base
  import opened JsonText
  import opened JsonNumber
  import opened JsonTree
  import Bits

  /** `parse_hex4`: shift in four digits, give up with 0 at the first that is none. */
  method ParseHex4(c: seq<byte>, at: nat) returns (h: nat)
    requires at + 4 <= |c|
    ensures h == Hex4(c[at..at + 4])
  {
    ghost var s := c[at..at + 4];
    h := 0;
    var i := 0;
    while i < 4
      invariant 0 <= i <= 4 && AllHex(s[..i])
      invariant h == HexValue(s[..i]) * (if i < 4 then 16 else 1)
    {
      assert c[at + i] == s[i];
      var d := HexDigit(c[at + i]);
      if d.None? {
        return 0;
      }
      assert s[..i + 1][..i] == s[..i];
      assert AllHex(s[..i + 1]);
      h := h + d.value;
      if i < 3 {
        h := h * 16;
      }
      i := i + 1;
    }
    assert s[..4] == s;
  }

  /** The code point shifted right by `n` groups of six bits. */
  ghost function Sextets(cp: nat, n: nat): (r: nat) {
    if n == 0 then cp else Bits.ShiftRight(Sextets(cp, n - 1), 6)
  }

  function Utf8Length(cp: nat): (n: nat)
    requires cp <= 0x10FFFF
    ensures n == |Utf8(cp)|
  {
    if cp < 0x80 then 1 else if cp < 0x800 then 2 else if cp < 0x10000 then 3 else 4
  }

  function LeadMark(n: nat): (m: byte) {
    if n == 2 then 0xC0 else if n == 3 then 0xE0 else if n == 4 then 0xF0 else 0
  }

  lemma SextetsDivide(cp: nat)
    ensures Sextets(cp, 1) == cp / 0x40
    ensures Sextets(cp, 2) == cp / 0x1000
    ensures Sextets(cp, 3) == cp / 0x40000
  {
    Bits.SixShifts(cp);
    Bits.SixShifts(cp / 0x40);
    Bits.SixShifts(cp / 0x1000);
    assert Sextets(cp, 1) == Bits.ShiftRight(Sextets(cp, 0), 6);
    assert Sextets(cp, 2) == Bits.ShiftRight(Sextets(cp, 1), 6);
    assert Sextets(cp, 3) == Bits.ShiftRight(Sextets(cp, 2), 6);
  }

  /** A continuation byte: `(a | 0x80) & 0xBF`. */
  function Continuation(a: nat): (b: byte)
    ensures b == 0x80 + a % 0x40
  {
    Bits.ContinuationBits(a);
    Bits.SixShifts(a);
    Bits.And(Bits.Or(a, 0x80), 0xBF)
  }

  /** The first of `n` bytes: `(a | mark) & 0xFF`, or `a & 0x7F` for a single one. */
  function Leading(a: nat, n: nat): (b: byte)
    requires match n case 1 => a < 0x80 case 2 => a < 0x20 case 3 => a < 0x10 case 4 => a < 0x08 case _ => false
    ensures b == LeadMark(n) + a
  {
    if n > 1 then
      Bits.LeadBits(a);
      Bits.And(Bits.Or(a, LeadMark(n)), 0xFF)
    else
      Bits.AsciiBits(a);
      Bits.And(a, 0x7F)
  }

  lemma Utf8ByteAt(cp: nat, i: nat)
    requires cp <= 0x10FFFF && i < |Utf8(cp)|
    ensures i > 0 ==> Utf8(cp)[i] == 0x80 + Sextets(cp, |Utf8(cp)| - 1 - i) % 0x40
    ensures var a := Sextets(cp, |Utf8(cp)| - 1);
            && Utf8(cp)[0] == LeadMark(|Utf8(cp)|) + a
            && match |Utf8(cp)| case 1 => a < 0x80 case 2 => a < 0x20 case 3 => a < 0x10 case 4 => a < 0x08 case _ => false
  {
    SextetsDivide(cp);
  }

  /** The octets of a code point. Kept folded; `Unfold(0)` opens it. */
  ghost predicate Spells(u: seq<byte>, cp: nat) {
    forall n: nat {:trigger Unfold(n)} :: Unfold(n) ==> cp <= 0x10FFFF && u == Utf8(cp)
  }

  lemma SpelledByte(u: seq<byte>, cp: nat, i: nat)
    requires Spells(u, cp) && 0 < i < |u|
    ensures u[i] == 0x80 + Sextets(cp, |u| - 1 - i) % 0x40
  {
    assert Unfold(0);
    Utf8ByteAt(cp, i);
  }

  /** The encoding loop: continuation bytes from the back; what is left goes into the first byte. */
  method WriteContinuations(cp: nat, length: nat, output: array<byte>, at: nat, ghost u: seq<byte>)
      returns (rest: nat)
    requires Spells(u, cp) && 0 < length == |u| && at + length <= output.Length
    modifies output
    ensures rest == Sextets(cp, length - 1)
    ensures forall i :: 0 <= i <= at ==> i < output.Length && output[i] == old(output[i])
    ensures forall i :: 0 < i < length ==> output[at + i] == u[i]
  {
    rest := cp;
    var position := length - 1;
    while position > 0
      invariant 0 <= position < length
      invariant rest == Sextets(cp, length - 1 - position)
      invariant forall i :: 0 <= i <= at ==> output[i] == old(output[i])
      invariant forall i :: position < i < length ==> output[at + i] == u[i]
    {
      SpelledByte(u, cp, position);
      output[at + position] := Continuation(rest);
      rest := Bits.ShiftRight(rest, 6);
      position := position - 1;
    }
  }

  /** The encoder: continuation bytes, then the lead byte. */
  method WriteUtf8(cp: nat, output: array<byte>, at: nat) returns (next: nat)
    requires cp <= 0x10FFFF && at + |Utf8(cp)| <= output.Length
    modifies output
    ensures next == at + |Utf8(cp)|
    ensures output[..next] == old(output[..at]) + Utf8(cp)
  {
    var length := Utf8Length(cp);
    ghost var u := Utf8(cp);
    var rest := WriteContinuations(cp, length, output, at, u);
    Utf8ByteAt(cp, 0);
    output[at] := Leading(rest, length);
    next := at + length;
    assert output[at..next] == u;
    assert output[..next] == output[..at] + output[at..next];
    assert output[..at] == old(output[..at]);
  }

  /** `0x10000 + (((first & 0x3FF) << 10) | (second & 0x3FF))`. */
  function PairValue(first: nat, second: nat): (cp: nat)
    requires IsHighSurrogate(first) && IsLowSurrogate(second)
    ensures cp == FromSurrogates(first, second)
  {
    Bits.SurrogateBits(first, second);
    0x10000 + Bits.Or(Bits.ShiftLeft(Bits.And(first, 0x3FF), 10), Bits.And(second, 0x3FF))
  }

  /** The code point of a `\u` literal, and the bytes it takes: 0 when it is not valid. */
  method ReadCodepoint(c: seq<byte>, j: nat, e: nat) returns (used: nat, codepoint: nat)
    requires e < |c|
    ensures used == 0 <==> Utf16Literal(c, j, e).None?
    ensures used != 0 ==> codepoint <= 0x10FFFF && Utf16Literal(c, j, e).value == (Utf8(codepoint), used)
  {
    if e < j + 6 {
      return 0, 0;
    }
    var first := ParseHex4(c, j + 2);
    if IsLowSurrogate(first) {
      return 0, 0;
    }
    if AllHex(c[j + 2..j + 6]) {
      HexValueBound(c[j + 2..j + 6]);
    }
    if !IsHighSurrogate(first) {
      return 6, first;
    }
    if e < j + 12 || c[j + 6] != BACKSLASH || c[j + 7] != LOWER_U {
      return 0, 0;
    }
    var second := ParseHex4(c, j + 8);
    if !IsLowSurrogate(second) {
      return 0, 0;
    }
    return 12, PairValue(first, second);
  }

  /** `utf16_literal_to_utf8`: bytes consumed, 0 when the literal is not valid. */
  method Utf16LiteralToUtf8(c: seq<byte>, j: nat, e: nat, output: array<byte>, at: nat)
      returns (used: nat, next: nat)
    requires e < |c|
    requires Utf16Literal(c, j, e).Some? ==> at + |Utf16Literal(c, j, e).value.0| <= output.Length
    requires at <= output.Length
    modifies output
    ensures used == 0 <==> Utf16Literal(c, j, e).None?
    ensures used != 0 ==>
      var (bytes, n) := Utf16Literal(c, j, e).value;
      used == n && next == at + |bytes| && output[..next] == old(output[..at]) + bytes
  {
    var codepoint;
    used, codepoint := ReadCodepoint(c, j, e);
    next := at;
    if used != 0 {
      next := WriteUtf8(codepoint, output, at);
    }
  }

  /** The decoded rest of a literal, with what is already written in front of it. */
  ghost predicate DecodesTo(
      whole: Option<seq<byte>>, written: seq<byte>, rest: Option<seq<byte>>)
  {
    if rest.None? then whole.None? else whole == Some(written + rest.value)
  }

  lemma DecodesNothing(whole: Option<seq<byte>>, written: seq<byte>)
    requires written == []
    ensures DecodesTo(whole, written, whole)
  {
    if whole.Some? {
      assert written + whole.value == whole.value;
    }
  }

  lemma DecodesStep(
      whole: Option<seq<byte>>, written: seq<byte>, more: seq<byte>, rest: Option<seq<byte>>)
    requires DecodesTo(whole, written, Prepend(more, rest))
    ensures DecodesTo(whole, written + more, rest)
  {
    if rest.Some? {
      assert written + (more + rest.value) == (written + more) + rest.value;
    }
  }

  /**
    Pass two stands at `input` with `written` behind it: what it still has to do fits the room that
    pass one reserved. Kept folded; `Unfold(0)` opens it.
   */
  ghost predicate Unescaping(c: seq<byte>, start: nat, e: nat, written: seq<byte>, input: nat, a: nat) {
    forall n: nat {:trigger Unfold(n)} :: Unfold(n) ==>
      && start + 1 <= input <= e + 1 <= |c| && FindEnd(c, start + 1) == Some(e)
      && |written| <= Units(c, start + 1, e)
      && (input <= e ==> Fits(c, e, input, a, Units(c, start + 1, e) - |written|))
      && DecodesTo(Decode(c, start + 1, e), written, Decode(c, input, e))
  }

  lemma UnescapeStart(c: seq<byte>, start: nat, e: nat, none: seq<byte>)
    requires start < |c| && FindEnd(c, start + 1) == Some(e) && none == []
    ensures Unescaping(c, start, e, none, start + 1, start + 1)
  {
    DecodesNothing(Decode(c, start + 1, e), none);
  }

  lemma UnescapeEnd(c: seq<byte>, start: nat, e: nat, written: seq<byte>, input: nat, a: nat)
    requires Unescaping(c, start, e, written, input, a) && input >= e
    ensures e < |c| && Decode(c, start + 1, e) == Some(written)
  {
    assert Unfold(0);
    assert written + [] == written;
  }

  /** The copy loop of `parse_number`. */
  method CopyNumberRun(c: seq<byte>, start: nat) returns (run: seq<byte>)
    requires start < |c|
    ensures run == c[start..NumberRunEnd(c, start, NUMBER_RUN_MAX)]
  {
    run := [];
    var i := 0;
    while i < NUMBER_RUN_MAX && start + i < |c| && IsNumberByte(c[start + i])
      invariant 0 <= i <= NUMBER_RUN_MAX && start + i <= |c|
      invariant run == c[start..start + i]
      invariant NumberRunEnd(c, start + i, NUMBER_RUN_MAX - i) == NumberRunEnd(c, start, NUMBER_RUN_MAX)
    {
      run := run + [c[start + i]];
      i := i + 1;
    }
  }

  class ParseBuffer {
    const content: seq<byte>
    var offset: nat
    var depth: nat

    constructor (content: seq<byte>, offset: nat)
      ensures this.content == content && this.offset == offset && depth == 0
    {
      this.content := content;
      this.offset := offset;
      depth := 0;
    }

    method SkipWhitespace()
      modifies this`offset
      ensures SkipsTo(content, old(offset), offset)
      ensures old(offset) <= offset && (if old(offset) < |content| then offset < |content| else offset == old(offset))
    {
      if offset >= |content| {
        return;
      }
      while offset < |content| && content[offset] <= 32
        invariant old(offset) <= offset <= |content|
        invariant SkipBlank(content, offset) == SkipBlank(content, old(offset))
      {
        offset := offset + 1;
      }
      if offset == |content| {
        offset := offset - 1;
      }
    }

    /** Pass one of `parse_string`: the closing quote and the number of skipped backslashes. */
    method FindStringEnd(start: nat) returns (end: Option<nat>, skipped: nat)
      requires start < |content|
      ensures end == FindEnd(content, start + 1)
      ensures end.Some? ==> end.value - (start + 1) == skipped + Units(content, start + 1, end.value)
    {
      var inputEnd := start + 1;
      skipped := 0;
      ghost var found := FindEnd(content, start + 1);
      while inputEnd < |content| && content[inputEnd] != QUOTE
        invariant start + 1 <= inputEnd <= |content|
        invariant FindEnd(content, inputEnd) == found
        invariant found.Some? ==>
          inputEnd - (start + 1) + Units(content, inputEnd, found.value)
            == skipped + Units(content, start + 1, found.value)
      {
        if content[inputEnd] == BACKSLASH {
          if inputEnd + 1 >= |content| {
            return None, skipped;
          }
          skipped := skipped + 1;
          inputEnd := inputEnd + 1;
        }
        inputEnd := inputEnd + 1;
      }
      if inputEnd >= |content| {
        return None, skipped;
      }
      end := Some(inputEnd);
    }

    /**
      `parse_string`. The output buffer has exactly the length pass one computed, and every write
      of pass two is proved to fall inside it, for malformed literals too.
     */
    method ParseString() returns (ok: bool, value: seq<byte>)
      requires offset < |content|
      modifies this`offset
      ensures ok <==> StringAt(content, old(offset)).Some?
      ensures ok ==> (value, offset) == StringAt(content, old(offset)).value
      ensures !ok ==> offset <= |content|
    {
      var start := offset;
      value := [];
      if content[start] != QUOTE {
        offset := start + 1;
        return false, [];
      }
      var end, skipped := FindStringEnd(start);
      if end.None? {
        offset := start + 1;
        return false, [];
      }
      var e := end.value;
      var allocation := (e - start) - skipped;
      var output := new byte[allocation + 1];
      var at, input;
      ok, at, input := Unescape(start, e, output);
      if !ok {
        offset := input;
        return false, [];
      }
      value := output[..at];
      output[at] := 0;
      offset := e + 1;
    }

    /** Pass two of `parse_string`. */
    method Unescape(start: nat, e: nat, output: array<byte>) returns (ok: bool, at: nat, input: nat)
      requires start < |content| && FindEnd(content, start + 1) == Some(e)
      requires output.Length == Units(content, start + 1, e) + 2
      modifies output
      ensures ok <==> Decode(content, start + 1, e).Some?
      ensures ok ==> at < output.Length && Some(output[..at]) == Decode(content, start + 1, e)
      ensures !ok ==> input <= |content|
    {
      ghost var a: nat := start + 1;
      input := start + 1;
      at := 0;
      UnescapeStart(content, start, e, output[..0]);
      while input < e
        invariant start + 1 <= input <= e + 1 && at + 2 <= output.Length
        invariant Unescaping(content, start, e, output[..at], input, a)
      {
        ok, at, input, a := UnescapeOne(start, e, output, at, input, a);
        if !ok {
          return;
        }
      }
      ok := true;
      UnescapeEnd(content, start, e, output[..at], input, a);
    }

    /** One round of that loop: a plain byte, a short escape or a `\u` literal. */
    method UnescapeOne(ghost start: nat, e: nat, output: array<byte>, at: nat, input: nat, ghost a: nat)
        returns (ok: bool, at': nat, input': nat, ghost a': nat)
      requires start < |content| && FindEnd(content, start + 1) == Some(e) && input < e
      requires output.Length == Units(content, start + 1, e) + 2 && at + 2 <= output.Length
      requires Unescaping(content, start, e, output[..at], input, a)
      modifies output
      ensures ok ==> input < input' <= e + 1 && at' + 2 <= output.Length
      ensures ok ==> Unescaping(content, start, e, output[..at'], input', a')
      ensures !ok ==> Decode(content, start + 1, e).None? && input' <= |content|
    {
      assert Unfold(0);
      ghost var whole := Decode(content, start + 1, e);
      ghost var room := Units(content, start + 1, e) - at;
      ok, at', input', a' := true, at, input, a;
      if content[input] != BACKSLASH {
        FitsPlain(content, e, input, a, room);
        a' := input + 1;
        DecodesStep(whole, output[..at], [content[input]], Decode(content, input + 1, e));
        at' := Put(output, at, content[input]);
        input' := input + 1;
      } else if ShortEscape(content[input + 1]).Some? {
        var code := ShortEscape(content[input + 1]).value;
        a' := FitsShort(content, e, input, a, room);
        DecodesStep(whole, output[..at], [code], Decode(content, input + 2, e));
        at' := Put(output, at, code);
        input' := input + 2;
      } else if content[input + 1] == LOWER_U {
        ghost var lit := Utf16Literal(content, input, e);
        if lit.Some? {
          a' := FitsLiteral(content, e, input, a, room);
          DecodesStep(whole, output[..at], lit.value.0, Decode(content, input + lit.value.1, e));
        }
        var used, next := Utf16LiteralToUtf8(content, input, e, output, at);
        if used == 0 {
          return false, at, input, a;
        }
        at' := next;
        input' := input + used;
      } else {
        return false, at, input, a;
      }
    }

    static method Put(output: array<byte>, at: nat, b: byte) returns (next: nat)
      requires at < output.Length
      modifies output
      ensures next == at + 1 && output[..next] == old(output[..at]) + [b]
    {
      output[at] := b;
      next := at + 1;
    }

    /** `parse_number`: copy at most 63 number bytes, then convert what `strtod` accepts of them. */
    method ParseNumber() returns (ok: bool, item: Json, valueInt: int)
      requires offset < |content|
      modifies this`offset
      ensures ok <==> NumberAt(content, old(offset)).Some?
      ensures ok ==> (item, offset) == NumberAt(content, old(offset)).value
      ensures ok ==> item.Number? && item.n.exp <= 0 && valueInt == ValueInt(item.n)
      ensures !ok ==> offset == old(offset)
    {
      var run := CopyNumberRun(content, offset);
      var v := Strtod(run);
      if v.None? {
        return false, Null, 0;
      }
      StrtodIsNormal(run);
      valueInt := ToValueInt(v.value.0);
      ok, item := true, Number(v.value.0);
      offset := offset + v.value.1;
    }

    /** `parse_value`. */
    method ParseItem() returns (ok: bool, item: Json)
      modifies this`offset, this`depth
      ensures ValueIs(content, old(offset), old(depth), if ok then Some((item, offset)) else None)
      ensures ok ==> old(offset) < offset <= |content|
      ensures ok ==> depth == old(depth)
      decreases |content| - offset, 5
    {
      item := Null;
      if HasText(content, offset, NULL_TEXT) {
        LiteralIs(content, offset, depth);
        offset := offset + 4;
        return true, Null;
      }
      if HasText(content, offset, FALSE_TEXT) {
        LiteralIs(content, offset, depth);
        offset := offset + 5;
        return true, False;
      }
      if HasText(content, offset, TRUE_TEXT) {
        LiteralIs(content, offset, depth);
        offset := offset + 4;
        return true, True;
      }
      if offset < |content| && content[offset] == QUOTE {
        StringIs(content, offset, depth);
        var s;
        ok, s := ParseString();
        item := String(CStr(s));
      } else if offset < |content| && (content[offset] == MINUS || IsDigit(content[offset])) {
        NumberIs(content, offset, depth);
        var valueInt;
        ok, item, valueInt := ParseNumber();
      } else if offset < |content| && content[offset] == LBRACKET {
        ok, item := ParseArrayItem();
      } else if offset < |content| && content[offset] == LBRACE {
        ok, item := ParseObjectItem();
      } else {
        NothingIs(content, offset, depth);
        ok := false;
      }
    }

    /** `parse_array`. */
    method ParseArrayItem() returns (ok: bool, item: Json)
      requires offset < |content| && content[offset] == LBRACKET
      modifies this`offset, this`depth
      ensures ValueIs(content, old(offset), old(depth), if ok then Some((item, offset)) else None)
      ensures ok ==> old(offset) < offset <= |content|
      ensures ok ==> depth == old(depth)
      decreases |content| - offset, 4
    {
      item := Null;
      if depth >= NESTING_LIMIT {
        ArrayFails(content, offset, depth, 0);
        return false, Null;
      }
      depth := depth + 1;
      offset := offset + 1;
      SkipWhitespace();
      if offset < |content| && content[offset] == RBRACKET {
        ArrayIsEmpty(content, old(offset), old(depth), offset);
        depth := depth - 1;
        offset := offset + 1;
        return true, Array([]);
      }
      if offset >= |content| {
        ArrayFails(content, old(offset), old(depth), offset);
        offset := offset - 1;
        return false, Null;
      }
      ok, item := ParseArrayFrom(old(offset));
    }

    /** The rest of `parse_array` from its first element on: it steps back in front of it. */
    method ParseArrayFrom(ghost was: nat) returns (ok: bool, item: Json)
      requires was < offset < |content| && 0 < depth <= NESTING_LIMIT
      requires content[was] == LBRACKET && SkipsTo(content, was + 1, offset) && content[offset] != RBRACKET
      modifies this`offset, this`depth
      ensures ValueIs(content, was, old(depth) - 1, if ok then Some((item, offset)) else None)
      ensures ok ==> was < offset <= |content| && depth == old(depth) - 1
      decreases |content| - offset + 1, 3
    {
      ghost var first, d := offset, depth;
      SkipsAgain(content, was + 1, first);
      offset := offset - 1;
      var items;
      ok, items := ParseItemList(first);
      if !ok {
        ArrayIs(content, was, d - 1, first, None);
        return false, Null;
      }
      ArrayIs(content, was, d - 1, first, Some((items, offset + 1)));
      depth := depth - 1;
      offset := offset + 1;
      item := Array(items);
    }

    /** The element loop of `parse_array`; on success it stops on the closing bracket. */
    method ParseItemList(ghost start: nat) returns (ok: bool, items: seq<Json>)
      requires offset < |content| && SkipsTo(content, offset + 1, start)
      modifies this`offset, this`depth
      ensures ItemsAre(content, start, old(depth), if ok then Some((items, offset + 1)) else None)
      ensures ok ==> old(offset) < offset < |content|
      ensures ok ==> depth == old(depth)
      decreases |content| - offset, 2
    {
      ghost var at := start;
      ItemsPendingStart(content, start, depth);
      items := [];
      ok := true;
      var more := true;
      while more
        invariant ok ==> old(offset) <= offset && depth == old(depth)
        invariant more ==> ok && offset < |content|
        invariant more ==> SkipsTo(content, offset + 1, at) && ItemsPending(content, start, items, at, depth)
        invariant !more ==> ItemsAre(content, start, old(depth), if ok then Some((items, offset + 1)) else None)
        invariant !more && ok ==> old(offset) < offset < |content|
        decreases more, |content| - offset
      {
        ok, more, items, at := ParseNextItem(items, start, at);
      }
    }

    /** One round of that loop, from the byte in front of the element. */
    method ParseNextItem(items: seq<Json>, ghost start: nat, ghost at: nat)
        returns (ok: bool, more: bool, items': seq<Json>, ghost at': nat)
      requires offset < |content| && SkipsTo(content, offset + 1, at)
      requires ItemsPending(content, start, items, at, depth)
      modifies this`offset, this`depth
      ensures more ==> ok && SkipsTo(content, offset + 1, at') && ItemsPending(content, start, items', at', depth)
      ensures !more ==>
        ItemsAre(content, start, old(depth), if ok then Some((items', offset + 1)) else None)
      ensures ok ==> old(offset) < offset < |content| && depth == old(depth)
      decreases |content| - offset, 1
    {
      items', at' := items, at;
      more := false;
      offset := offset + 1;
      SkipWhitespace();
      SkipsUnique(content, old(offset) + 1, at, offset);
      var v;
      ok, v := ParseItem();
      if !ok {
        ItemsPendingFail(content, start, items, at, old(depth));
        return;
      }
      ghost var end := offset;
      SkipWhitespace();
      at' := ItemsPendingStep(content, start, items, at, depth, v, end, offset);
      items' := items + [v];
      ok := offset < |content| && (content[offset] == COMMA || content[offset] == RBRACKET);
      more := ok && content[offset] == COMMA;
    }

    /** `parse_object`. */
    method ParseObjectItem() returns (ok: bool, item: Json)
      requires offset < |content| && content[offset] == LBRACE
      modifies this`offset, this`depth
      ensures ValueIs(content, old(offset), old(depth), if ok then Some((item, offset)) else None)
      ensures ok ==> old(offset) < offset <= |content|
      ensures ok ==> depth == old(depth)
      decreases |content| - offset, 4
    {
      item := Null;
      if depth >= NESTING_LIMIT {
        ObjectFails(content, offset, depth, 0);
        return false, Null;
      }
      depth := depth + 1;
      offset := offset + 1;
      SkipWhitespace();
      if offset < |content| && content[offset] == RBRACE {
        ObjectIsEmpty(content, old(offset), old(depth), offset);
        depth := depth - 1;
        offset := offset + 1;
        return true, Object([]);
      }
      if offset >= |content| {
        ObjectFails(content, old(offset), old(depth), offset);
        offset := offset - 1;
        return false, Null;
      }
      ok, item := ParseObjectFrom(old(offset));
    }

    /** The rest of `parse_object` from its first element on: it steps back in front of it. */
    method ParseObjectFrom(ghost was: nat) returns (ok: bool, item: Json)
      requires was < offset < |content| && 0 < depth <= NESTING_LIMIT
      requires content[was] == LBRACE && SkipsTo(content, was + 1, offset) && content[offset] != RBRACE
      modifies this`offset, this`depth
      ensures ValueIs(content, was, old(depth) - 1, if ok then Some((item, offset)) else None)
      ensures ok ==> was < offset <= |content| && depth == old(depth) - 1
      decreases |content| - offset + 1, 3
    {
      ghost var first, d := offset, depth;
      SkipsAgain(content, was + 1, first);
      offset := offset - 1;
      var members;
      ok, members := ParseMemberList(first);
      if !ok {
        ObjectIs(content, was, d - 1, first, None);
        return false, Null;
      }
      ObjectIs(content, was, d - 1, first, Some((members, offset + 1)));
      depth := depth - 1;
      offset := offset + 1;
      item := Object(members);
    }

    /** The loop of `parse_object`; on success it stops on the closing brace. */
    method ParseMemberList(ghost start: nat) returns (ok: bool, members: seq<Member>)
      requires offset < |content| && SkipsTo(content, offset + 1, start)
      modifies this`offset, this`depth
      ensures MembersAre(content, start, old(depth), if ok then Some((members, offset + 1)) else None)
      ensures ok ==> old(offset) < offset < |content|
      ensures ok ==> depth == old(depth)
      decreases |content| - offset, 2
    {
      ghost var at := start;
      MembersPendingStart(content, start, depth);
      members := [];
      ok := true;
      var more := true;
      while more
        invariant ok ==> old(offset) <= offset && depth == old(depth)
        invariant more ==> ok && offset < |content|
        invariant more ==> SkipsTo(content, offset + 1, at) && MembersPending(content, start, members, at, depth)
        invariant !more ==>
          MembersAre(content, start, old(depth), if ok then Some((members, offset + 1)) else None)
        invariant !more && ok ==> old(offset) < offset < |content|
        decreases more, |content| - offset
      {
        ok, more, members, at := ParseNextMember(members, start, at);
      }
    }

    /** One round of that loop, from the byte in front of the key. */
    method ParseNextMember(members: seq<Member>, ghost start: nat, ghost at: nat)
        returns (ok: bool, more: bool, members': seq<Member>, ghost at': nat)
      requires offset < |content| && SkipsTo(content, offset + 1, at)
      requires MembersPending(content, start, members, at, depth)
      modifies this`offset, this`depth
      ensures more ==>
        ok && SkipsTo(content, offset + 1, at') && MembersPending(content, start, members', at', depth)
      ensures !more ==>
        MembersAre(content, start, old(depth), if ok then Some((members', offset + 1)) else None)
      ensures ok ==> old(offset) < offset < |content| && depth == old(depth)
      decreases |content| - offset, 1
    {
      members', at' := members, at;
      more := false;
      if offset + 1 >= |content| {
        SkipsBeyond(content, offset + 1, at);
        NoMemberAtEnd(content, at, depth);
        MembersPendingFail(content, start, members, at, depth);
        return false, false, members, at;
      }
      offset := offset + 1;
      SkipWhitespace();
      SkipsUnique(content, old(offset) + 1, at, offset);
      var m;
      ok, m := ParseOneMember();
      if !ok {
        MembersPendingFail(content, start, members, at, old(depth));
        return;
      }
      at' := MembersPendingStep(content, start, members, at, depth, m, offset);
      members' := members + [m];
      ok := offset < |content| && (content[offset] == COMMA || content[offset] == RBRACE);
      more := ok && content[offset] == COMMA;
    }

    /** Key, colon and value of one member, up to the next significant byte. */
    method ParseOneMember() returns (ok: bool, m: Member)
      requires offset < |content|
      modifies this`offset, this`depth
      ensures MemberIs(content, old(offset), old(depth), if ok then Some((m, offset)) else None)
      ensures ok ==> old(offset) < offset
      ensures ok ==> depth == old(depth)
      decreases |content| - offset, 3
    {
      m := Member([], Null);
      var key;
      ok, key := ParseString();
      if !ok {
        NoKey(content, old(offset), depth);
        return;
      }
      SkipWhitespace();
      ghost var colon := offset;
      if offset >= |content| || content[offset] != COLON {
        NoColon(content, old(offset), depth, colon);
        return false, m;
      }
      offset := offset + 1;
      SkipWhitespace();
      ghost var at := offset;
      var v;
      ok, v := ParseItem();
      if !ok {
        NoMemberValue(content, old(offset), old(depth), colon, at);
        return;
      }
      ghost var end := offset;
      SkipWhitespace();
      MemberValueIs(content, old(offset), old(depth), colon, at, v, end, offset);
      m := Member(CStr(key), v);
    }
  }

  /** The blanks from `off` end at `k`. Kept folded; `Unfold(0)` opens it. */
  ghost predicate SkipsTo(c: seq<byte>, off: nat, k: nat) {
    forall n: nat {:trigger Unfold(n)} :: Unfold(n) ==> k == SkipWs(c, off)
  }

  lemma SkipsUnique(c: seq<byte>, off: nat, k: nat, k': nat)
    requires SkipsTo(c, off, k) && SkipsTo(c, off, k')
    ensures k == k'
  {
    assert Unfold(0);
  }

  lemma SkipsBeyond(c: seq<byte>, off: nat, k: nat)
    requires off >= |c| && SkipsTo(c, off, k)
    ensures k >= |c|
  {
    assert Unfold(0);
  }

  lemma SkipsAgain(c: seq<byte>, off: nat, k: nat)
    requires SkipsTo(c, off, k)
    ensures SkipsTo(c, k, k)
  {
    assert Unfold(0);
    SkipIsIdempotent(c, off);
  }

  /** Skipping blanks twice is skipping them once, also at the end of the buffer. */
  lemma SkipIsIdempotent(c: seq<byte>, off: nat)
    ensures SkipWs(c, SkipWs(c, off)) == SkipWs(c, off)
  {
    if off < |c| {
      SkipBlankStops(c, off);
    }
  }

  lemma {:induction false} SkipBlankStops(c: seq<byte>, off: nat)
    requires off <= |c|
    ensures var k := SkipBlank(c, off); k < |c| ==> c[k] > 32
    ensures var k := SkipBlank(c, off); off < k ==> c[k - 1] <= 32
    decreases |c| - off
  {
    if off < |c| && c[off] <= 32 {
      SkipBlankStops(c, off + 1);
    }
  }

  //
  // One unfolding each of the parser functions, for the branches of the methods above
  //

  lemma LiteralIs(c: seq<byte>, p: nat, d: nat)
    ensures HasText(c, p, NULL_TEXT) ==> p + 4 <= |c| && ValueIs(c, p, d, Some((Null, p + 4)))
    ensures HasText(c, p, FALSE_TEXT) && !HasText(c, p, NULL_TEXT) ==>
              p + 5 <= |c| && ValueIs(c, p, d, Some((False, p + 5)))
    ensures HasText(c, p, TRUE_TEXT) && !HasText(c, p, NULL_TEXT) && !HasText(c, p, FALSE_TEXT) ==>
              p + 4 <= |c| && ValueIs(c, p, d, Some((True, p + 4)))
  {
    assert Unfold(0);
    if HasText(c, p, NULL_TEXT) {
      HasTextFits(c, p, NULL_TEXT);
    }
    if HasText(c, p, FALSE_TEXT) {
      HasTextFits(c, p, FALSE_TEXT);
    }
    if HasText(c, p, TRUE_TEXT) {
      HasTextFits(c, p, TRUE_TEXT);
    }
  }

  ghost predicate NoLiteralAt(c: seq<byte>, p: nat) {
    !HasText(c, p, NULL_TEXT) && !HasText(c, p, FALSE_TEXT) && !HasText(c, p, TRUE_TEXT)
  }

  lemma StringIs(c: seq<byte>, p: nat, d: nat)
    requires p < |c| && c[p] == QUOTE
    ensures var s := StringAt(c, p);
            ValueIs(c, p, d, if s.None? then None else Some((String(CStr(s.value.0)), s.value.1)))
  {
    NoLiteral(c, p);
    assert Unfold(0);
  }

  lemma NumberIs(c: seq<byte>, p: nat, d: nat)
    requires p < |c| && (c[p] == MINUS || IsDigit(c[p]))
    ensures ValueIs(c, p, d, NumberAt(c, p))
  {
    NoLiteral(c, p);
    assert Unfold(0);
  }

  lemma NothingIs(c: seq<byte>, p: nat, d: nat)
    requires NoLiteralAt(c, p)
    requires p < |c| ==> c[p] !in {QUOTE, MINUS, LBRACKET, LBRACE} && !IsDigit(c[p])
    ensures ValueIs(c, p, d, None)
  {
    assert Unfold(0);
  }

  lemma ArrayFails(c: seq<byte>, off: nat, d: nat, p: nat)
    requires off < |c| && c[off] == LBRACKET && (d >= NESTING_LIMIT || (SkipsTo(c, off + 1, p) && p >= |c|))
    ensures ValueIs(c, off, d, None)
  {
    NoLiteral(c, off);
    assert Unfold(0);
  }

  lemma ArrayIsEmpty(c: seq<byte>, off: nat, d: nat, p: nat)
    requires off < |c| && c[off] == LBRACKET && d < NESTING_LIMIT
    requires SkipsTo(c, off + 1, p) && p < |c| && c[p] == RBRACKET
    ensures ValueIs(c, off, d, Some((Array([]), p + 1)))
  {
    NoLiteral(c, off);
    assert Unfold(0);
  }

  /** The value, given what its list parses to. */
  lemma ArrayIs(c: seq<byte>, off: nat, d: nat, p: nat, list: Option<(seq<Json>, nat)>)
    requires off < |c| && c[off] == LBRACKET && d < NESTING_LIMIT
    requires SkipsTo(c, off + 1, p) && p < |c| && c[p] != RBRACKET && ItemsAre(c, p, d + 1, list)
    ensures ValueIs(c, off, d, if list.None? then None else Some((Array(list.value.0), list.value.1)))
  {
    NoLiteral(c, off);
    assert Unfold(0);
  }

  lemma ObjectFails(c: seq<byte>, off: nat, d: nat, p: nat)
    requires off < |c| && c[off] == LBRACE && (d >= NESTING_LIMIT || (SkipsTo(c, off + 1, p) && p >= |c|))
    ensures ValueIs(c, off, d, None)
  {
    NoLiteral(c, off);
    assert Unfold(0);
  }

  lemma ObjectIsEmpty(c: seq<byte>, off: nat, d: nat, p: nat)
    requires off < |c| && c[off] == LBRACE && d < NESTING_LIMIT
    requires SkipsTo(c, off + 1, p) && p < |c| && c[p] == RBRACE
    ensures ValueIs(c, off, d, Some((Object([]), p + 1)))
  {
    NoLiteral(c, off);
    assert Unfold(0);
  }

  /** The value, given what its list parses to. */
  lemma ObjectIs(c: seq<byte>, off: nat, d: nat, p: nat, list: Option<(seq<Member>, nat)>)
    requires off < |c| && c[off] == LBRACE && d < NESTING_LIMIT
    requires SkipsTo(c, off + 1, p) && p < |c| && c[p] != RBRACE && MembersAre(c, p, d + 1, list)
    ensures ValueIs(c, off, d, if list.None? then None else Some((Object(list.value.0), list.value.1)))
  {
    NoLiteral(c, off);
    assert Unfold(0);
  }

  ghost predicate MemberIs(c: seq<byte>, p: nat, d: nat, r: Option<(Member, nat)>) {
    forall n: nat {:trigger Unfold(n)} :: Unfold(n) ==> ParseMember(c, p, d) == r
  }

  lemma NoKey(c: seq<byte>, p: nat, d: nat)
    requires StringAt(c, p).None?
    ensures MemberIs(c, p, d, None)
  {
    assert Unfold(0);
  }

  lemma NoColon(c: seq<byte>, p: nat, d: nat, k: nat)
    requires StringAt(c, p).Some? && SkipsTo(c, StringAt(c, p).value.1, k)
    requires k >= |c| || c[k] != COLON
    ensures MemberIs(c, p, d, None)
  {
    assert Unfold(0);
  }

  lemma NoMemberValue(c: seq<byte>, p: nat, d: nat, k: nat, at: nat)
    requires StringAt(c, p).Some? && SkipsTo(c, StringAt(c, p).value.1, k)
    requires k < |c| && c[k] == COLON && SkipsTo(c, k + 1, at) && ValueIs(c, at, d, None)
    ensures MemberIs(c, p, d, None)
  {
    assert Unfold(0);
  }

  lemma MemberValueIs(c: seq<byte>, p: nat, d: nat, k: nat, at: nat, v: Json, end: nat, q: nat)
    requires StringAt(c, p).Some? && SkipsTo(c, StringAt(c, p).value.1, k)
    requires k < |c| && c[k] == COLON && SkipsTo(c, k + 1, at)
    requires ValueIs(c, at, d, Some((v, end))) && SkipsTo(c, end, q)
    ensures MemberIs(c, p, d, Some((Member(CStr(StringAt(c, p).value.0), v), q)))
  {
    assert Unfold(0);
  }

  lemma NoMemberAtEnd(c: seq<byte>, p: nat, d: nat)
    requires p >= |c|
    ensures MemberIs(c, p, d, None)
  {
    assert Unfold(0);
  }

  //
  // The list loops: what is read so far, and what the list parser makes of the remainder
  //

  ghost predicate SoFar<T>(whole: Option<(seq<T>, nat)>, read: seq<T>, rest: Option<(seq<T>, nat)>) {
    if rest.None? then whole.None? else whole == Some((read + rest.value.0, rest.value.1))
  }

  lemma SoFarStart<T>(whole: Option<(seq<T>, nat)>)
    ensures SoFar(whole, [], whole)
  {
    if whole.Some? {
      assert [] + whole.value.0 == whole.value.0;
    }
  }

  lemma SoFarStep<T>(
      whole: Option<(seq<T>, nat)>, read: seq<T>, v: T, before: Option<(seq<T>, nat)>,
      rest: Option<(seq<T>, nat)>)
    requires SoFar(whole, read, before)
    requires before == if rest.None? then None else Some(([v] + rest.value.0, rest.value.1))
    ensures SoFar(whole, read + [v], rest)
  {
    if rest.Some? {
      assert read + ([v] + rest.value.0) == (read + [v]) + rest.value.0;
    }
  }

  ghost predicate ItemsPending(c: seq<byte>, start: nat, read: seq<Json>, at: nat, d: nat) {
    forall n: nat {:trigger Unfold(n)} :: Unfold(n) ==>
      SoFar(ParseItems(c, start, d), read, ParseItems(c, at, d))
  }

  lemma ItemsPendingStart(c: seq<byte>, start: nat, d: nat)
    ensures ItemsPending(c, start, [], start, d)
  {
    SoFarStart(ParseItems(c, start, d));
  }

  lemma ItemsPendingFail(c: seq<byte>, start: nat, read: seq<Json>, at: nat, d: nat)
    requires ItemsPending(c, start, read, at, d) && ValueIs(c, at, d, None)
    ensures ItemsAre(c, start, d, None)
  {
    assert Unfold(0);
  }

  lemma ItemsPendingMore(
      c: seq<byte>, start: nat, read: seq<Json>, at: nat, d: nat, v: Json, z: nat, q: nat) returns (next: nat)
    requires ItemsPending(c, start, read, at, d) && ValueIs(c, at, d, Some((v, z))) && SkipsTo(c, z, q)
    requires q < |c| && c[q] == COMMA
    ensures SkipsTo(c, q + 1, next) && ItemsPending(c, start, read + [v], next, d)
  {
    assert Unfold(0);
    next := SkipWs(c, q + 1);
    SoFarStep(ParseItems(c, start, d), read, v, ParseItems(c, at, d), ParseItems(c, next, d));
  }

  lemma ItemsPendingEnd(c: seq<byte>, start: nat, read: seq<Json>, at: nat, d: nat, v: Json, z: nat, q: nat)
    requires ItemsPending(c, start, read, at, d) && ValueIs(c, at, d, Some((v, z))) && SkipsTo(c, z, q)
    requires q >= |c| || c[q] != COMMA
    ensures ItemsAre(c, start, d, if q < |c| && c[q] == RBRACKET then Some((read + [v], q + 1)) else None)
  {
    assert Unfold(0);
  }

  lemma ItemsPendingStep(
      c: seq<byte>, start: nat, read: seq<Json>, at: nat, d: nat, v: Json, z: nat, q: nat) returns (next: nat)
    requires ItemsPending(c, start, read, at, d) && ValueIs(c, at, d, Some((v, z))) && SkipsTo(c, z, q)
    ensures if q < |c| && c[q] == COMMA then SkipsTo(c, q + 1, next) && ItemsPending(c, start, read + [v], next, d)
            else if q < |c| && c[q] == RBRACKET then ItemsAre(c, start, d, Some((read + [v], q + 1)))
            else ItemsAre(c, start, d, None)
  {
    if q < |c| && c[q] == COMMA {
      next := ItemsPendingMore(c, start, read, at, d, v, z, q);
    } else {
      ItemsPendingEnd(c, start, read, at, d, v, z, q);
      next := 0;
    }
  }

  ghost predicate MembersPending(c: seq<byte>, start: nat, read: seq<Member>, at: nat, d: nat) {
    forall n: nat {:trigger Unfold(n)} :: Unfold(n) ==>
      SoFar(ParseMembers(c, start, d), read, ParseMembers(c, at, d))
  }

  lemma MembersPendingStart(c: seq<byte>, start: nat, d: nat)
    ensures MembersPending(c, start, [], start, d)
  {
    SoFarStart(ParseMembers(c, start, d));
  }

  lemma MembersPendingFail(c: seq<byte>, start: nat, read: seq<Member>, at: nat, d: nat)
    requires MembersPending(c, start, read, at, d) && MemberIs(c, at, d, None)
    ensures MembersAre(c, start, d, None)
  {
    assert Unfold(0);
  }

  lemma MembersPendingStep(
      c: seq<byte>, start: nat, read: seq<Member>, at: nat, d: nat, m: Member, q: nat) returns (next: nat)
    requires MembersPending(c, start, read, at, d) && MemberIs(c, at, d, Some((m, q)))
    ensures if q < |c| && c[q] == COMMA then SkipsTo(c, q + 1, next) && MembersPending(c, start, read + [m], next, d)
            else if q < |c| && c[q] == RBRACE then MembersAre(c, start, d, Some((read + [m], q + 1)))
            else MembersAre(c, start, d, None)
  {
    assert Unfold(0);
    next := SkipWs(c, q + 1);
    if q < |c| && c[q] == COMMA {
      SoFarStep(ParseMembers(c, start, d), read, m, ParseMembers(c, at, d), ParseMembers(c, next, d));
    }
  }

  /** `cJSON_Parse`: the tree, or the place of the error inside the text and its terminator. */
  method ParseText(text: seq<byte>) returns (r: Option<Json>, errorAt: nat)
    ensures r == Parse(text)
    ensures errorAt <= |text|
  {
    var c := text + [0];
    var buffer := new ParseBuffer(c, BomEnd(c));
    buffer.SkipWhitespace();
    var ok, item := buffer.ParseItem();
    assert Unfold(0);
    errorAt := 0;
    if ok {
      r := Some(item);
    } else {
      r := None;
      errorAt := if buffer.offset < |c| then buffer.offset else |c| - 1;
    }
  }
}
