/**
  JSON string literals: the two-pass unescaper of `parse_string`, the UTF-16 literal
  decoder and the escaper of `print_string_ptr`.

  Standards: RFC 8259 section 7 (string escapes), RFC 3629 section 3 (UTF-8),
  RFC 2781 section 2.2 (surrogate pairs).
 */
module JsonText {
  import opened Base

  const QUOTE: byte := 0x22
  const BACKSLASH: byte := 0x5C
  const LOWER_U: byte := 0x75

  //
  // Pass one: where does the literal end, and how many output units does it reserve?
  //

  /** Index of the closing quote of a literal whose body starts at `i`. */
  function FindEnd(c: seq<byte>, i: nat): (e: Option<nat>)
    ensures e.Some? ==> i <= e.value < |c| && c[e.value] == QUOTE
    decreases |c| - i
  {
    if i >= |c| then None
    else if c[i] == QUOTE then Some(i)
    else if c[i] == BACKSLASH then
      if i + 1 >= |c| then None else FindEnd(c, i + 2)
    else FindEnd(c, i + 1)
  }

  /** Output units pass one counts between `i` and `e`: a backslash and its follower are one. */
  function Units(c: seq<byte>, i: nat, e: nat): (n: nat)
    requires e < |c|
    decreases e - i
  {
    if i >= e then 0
    else if c[i] == BACKSLASH then 1 + Units(c, i + 2, e)
    else 1 + Units(c, i + 1, e)
  }

  //
  // Pass two: the decoded bytes
  //

  function HexDigit(b: byte): (d: Option<nat>)
    ensures d.Some? ==> d.value < 16 && b != QUOTE && b != BACKSLASH
  {
    if 0x30 <= b <= 0x39 then Some(b - 0x30)
    else if 0x41 <= b <= 0x46 then Some(10 + b - 0x41)
    else if 0x61 <= b <= 0x66 then Some(10 + b - 0x61)
    else None
  }

  predicate AllHex(s: seq<byte>) {
    forall i :: 0 <= i < |s| ==> HexDigit(s[i]).Some?
  }

  /** Positional value of a run of hexadecimal digits. */
  function HexValue(s: seq<byte>): (v: nat)
    requires AllHex(s)
  {
    if s == [] then 0 else HexValue(s[..|s| - 1]) * 16 + HexDigit(s[|s| - 1]).value
  }

  /** `parse_hex4`: the value of four hex digits, and 0 when any of them is not one. */
  function Hex4(s: seq<byte>): (v: nat)
    requires |s| == 4
  {
    if AllHex(s) then HexValue(s) else 0
  }

  lemma HexValueBound(s: seq<byte>)
    requires |s| == 4 && AllHex(s)
    ensures HexValue(s) < 0x10000
  {
    var t3 := s[..3];
    var t2 := t3[..2];
    var t1 := t2[..1];
    assert t1[..0] == [];
    assert HexValue(t1) == HexDigit(t1[0]).value;
    assert HexValue(t2) == HexValue(t1) * 16 + HexDigit(t2[1]).value;
    assert HexValue(t3) == HexValue(t2) * 16 + HexDigit(t3[2]).value;
  }

  predicate IsHighSurrogate(v: nat) { 0xD800 <= v <= 0xDBFF }
  predicate IsLowSurrogate(v: nat) { 0xDC00 <= v <= 0xDFFF }

  /** Unicode scalar values: code points that are not surrogates. */
  predicate IsScalar(cp: nat) { cp <= 0x10FFFF && !(0xD800 <= cp <= 0xDFFF) }

  /** UTF-8 octets of a code point, after the table in RFC 3629 section 3. */
  function Utf8(cp: nat): (u: seq<byte>)
    requires cp <= 0x10FFFF
    ensures 1 <= |u| <= 4
    ensures cp < 0x10000 ==> |u| <= 3
  {
    if cp < 0x80 then [cp]
    else if cp < 0x800 then [0xC0 + cp / 0x40, 0x80 + cp % 0x40]
    else if cp < 0x10000 then [0xE0 + cp / 0x1000, 0x80 + cp / 0x40 % 0x40, 0x80 + cp % 0x40]
    else [0xF0 + cp / 0x40000, 0x80 + cp / 0x1000 % 0x40, 0x80 + cp / 0x40 % 0x40, 0x80 + cp % 0x40]
  }

  /** A decoder for the octets above, used to show that no two code points share an encoding. */
  function Utf8Decode(u: seq<byte>): (cp: int) {
    var v: seq<int> := seq(|u|, i requires 0 <= i < |u| => u[i]);
    if |v| == 1 then v[0]
    else if |v| == 2 then (v[0] - 0xC0) * 0x40 + (v[1] - 0x80)
    else if |v| == 3 then (v[0] - 0xE0) * 0x1000 + (v[1] - 0x80) * 0x40 + (v[2] - 0x80)
    else if |v| == 4 then
      (v[0] - 0xF0) * 0x40000 + (v[1] - 0x80) * 0x1000 + (v[2] - 0x80) * 0x40 + (v[3] - 0x80)
    else -1
  }

  /** The range of the first octet of a form of `n` octets. */
  function Utf8Lead(n: nat): (b: nat) {
    if n == 1 then 0 else if n == 2 then 0xC0 else if n == 3 then 0xE0 else 0xF0
  }

  function Utf8LeadEnd(n: nat): (b: nat) {
    if n == 1 then 0x80 else if n == 2 then 0xE0 else if n == 3 then 0xF0 else 0xF8
  }

  lemma Utf8Decodes(cp: nat)
    requires cp <= 0x10FFFF
    ensures Utf8Decode(Utf8(cp)) == cp
    // it is the shortest form, and its bytes have the marks of the table
    ensures |Utf8(cp)| == if cp < 0x80 then 1 else if cp < 0x800 then 2 else if cp < 0x10000 then 3 else 4
    ensures Utf8Lead(|Utf8(cp)|) <= Utf8(cp)[0] < Utf8LeadEnd(|Utf8(cp)|)
    ensures forall i :: 1 <= i < |Utf8(cp)| ==> 0x80 <= Utf8(cp)[i] < 0xC0
  {
    assert cp / 0x1000 == cp / 0x40 / 0x40;
    assert cp / 0x40000 == cp / 0x1000 / 0x40;
  }

  /** Code point of a surrogate pair (RFC 2781 section 2.2). */
  function FromSurrogates(hi: nat, lo: nat): (cp: nat)
    requires IsHighSurrogate(hi) && IsLowSurrogate(lo)
    ensures 0x10000 <= cp <= 0x10FFFF
  {
    0x10000 + (hi - 0xD800) * 0x400 + (lo - 0xDC00)
  }

  /** What `utf16_literal_to_utf8` makes of a `\u` at `j`: bytes written and bytes consumed. */
  function Utf16Literal(c: seq<byte>, j: nat, e: nat): (r: Option<(seq<byte>, nat)>)
    requires e < |c|
    ensures r.Some? ==> 1 <= |r.value.0| <= 4 && r.value.1 in {6, 12} && j + r.value.1 <= e
  {
    if e < j + 6 then None
    else
      var first := Hex4(c[j + 2..j + 6]);
      if IsLowSurrogate(first) then None
      else if IsHighSurrogate(first) then
        if e < j + 12 || c[j + 6] != BACKSLASH || c[j + 7] != LOWER_U then None
        else
          var second := Hex4(c[j + 8..j + 12]);
          if !IsLowSurrogate(second) then None
          else Some((Utf8(FromSurrogates(first, second)), 12))
      else
        if AllHex(c[j + 2..j + 6]) then
          HexValueBound(c[j + 2..j + 6]);
          Some((Utf8(first), 6))
        else Some((Utf8(0), 6))
  }

  /** Meaning of the character after a backslash, for the one-character escapes. */
  function ShortEscape(b: byte): (r: Option<byte>) {
    if b == 0x62 then Some(8)
    else if b == 0x66 then Some(12)
    else if b == 0x6E then Some(10)
    else if b == 0x72 then Some(13)
    else if b == 0x74 then Some(9)
    else if b == QUOTE || b == BACKSLASH || b == 0x2F then Some(b)
    else None
  }

  /** Bytes pass two produces from `j` up to the end `e` that pass one found. */
  function Decode(c: seq<byte>, j: nat, e: nat): (r: Option<seq<byte>>)
    requires e < |c|
    decreases e - j
  {
    if j >= e then Some([])
    else if c[j] != BACKSLASH then Prepend([c[j]], Decode(c, j + 1, e))
    else if ShortEscape(c[j + 1]).Some? then Prepend([ShortEscape(c[j + 1]).value], Decode(c, j + 2, e))
    else if c[j + 1] == LOWER_U then
      var lit := Utf16Literal(c, j, e);
      if lit.None? then None else Prepend(lit.value.0, Decode(c, j + lit.value.1, e))
    else None
  }

  function Prepend(p: seq<byte>, r: Option<seq<byte>>): (s: Option<seq<byte>>) {
    if r.None? then None else Some(p + r.value)
  }

  /** A whole literal at `off`: its decoded bytes and the offset after the closing quote. */
  function StringAt(c: seq<byte>, off: nat): (r: Option<(seq<byte>, nat)>)
    ensures r.Some? ==> off + 2 <= r.value.1 <= |c|
  {
    if off >= |c| || c[off] != QUOTE then None
    else
      var e := FindEnd(c, off + 1);
      if e.None? then None
      else
        var d := Decode(c, off + 1, e.value);
        if d.None? then None else Some((d.value, e.value + 1))
  }

  //
  // The two passes agree on space, wherever they split the escapes
  //

  lemma {:induction false} UnitsBound(c: seq<byte>, i: nat, e: nat)
    requires e < |c| && FindEnd(c, i) == Some(e)
    ensures Units(c, i, e) <= e - i
    decreases e - i
  {
    if i < e {
      UnitsBound(c, if c[i] == BACKSLASH then i + 2 else i + 1, e);
    }
  }

  /** Pass one from `a` meets `target` or the byte after it, at most two bytes a unit. */
  lemma {:induction false} PassOneMeets(c: seq<byte>, a: nat, e: nat, target: nat) returns (a': nat)
    requires FindEnd(c, a) == Some(e) && a <= target <= e
    ensures target <= a' <= target + 1 && FindEnd(c, a') == Some(e)
    ensures Units(c, a, e) >= Units(c, a', e) + (target - a + 1) / 2
    decreases target - a
  {
    a' := a;
    if a < target {
      var step := if c[a] == BACKSLASH then 2 else 1;
      if a + step <= target {
        a' := PassOneMeets(c, a + step, e, target);
      } else {
        a' := a + step;
      }
    }
  }

  /** Over bytes that are neither quote nor backslash pass one takes one unit each. */
  lemma {:induction false} PassOnePlain(c: seq<byte>, a: nat, e: nat, n: nat)
    requires FindEnd(c, a) == Some(e) && a + n <= |c|
    requires forall i :: a <= i < a + n ==> c[i] != QUOTE && c[i] != BACKSLASH
    ensures FindEnd(c, a + n) == Some(e) && Units(c, a, e) == n + Units(c, a + n, e)
    decreases n
  {
    if n > 0 {
      assert c[a] != QUOTE;
      PassOnePlain(c, a + 1, e, n - 1);
    }
  }

  /**
    The space invariant of pass two. `j` is where pass two stands, `a` is `j` or `j + 1` and is a
    place where pass one also stood; `room` is what is left of the space pass one reserved.
   */
  ghost predicate Fits(c: seq<byte>, e: nat, j: nat, a: nat, room: int) {
    && j <= a <= j + 1
    && FindEnd(c, a) == Some(e)
    && (a - j) + Units(c, a, e) <= room
  }

  lemma FitsPlain(c: seq<byte>, e: nat, j: nat, a: nat, room: int)
    requires Fits(c, e, j, a, room) && j < e && c[j] != BACKSLASH
    ensures room >= 1 && Fits(c, e, j + 1, j + 1, room - 1)
  {
  }

  /** After a short escape pass two is either past the end or the invariant still holds. */
  lemma FitsShort(c: seq<byte>, e: nat, j: nat, a: nat, room: int) returns (a': nat)
    requires Fits(c, e, j, a, room) && j < e && c[j] == BACKSLASH
    ensures room >= 1
    ensures j + 2 <= e ==> Fits(c, e, j + 2, a', room - 1)
  {
    a' := j + 2;
    if a == j + 1 && a < e && c[a] == BACKSLASH {
      a' := j + 3;
    }
  }

  lemma FitsLiteral(c: seq<byte>, e: nat, j: nat, a: nat, room: int) returns (a': nat)
    requires Fits(c, e, j, a, room) && j < e && c[j] == BACKSLASH && c[j + 1] == LOWER_U
    requires Utf16Literal(c, j, e).Some?
    ensures var (bytes, used) := Utf16Literal(c, j, e).value;
            |bytes| <= room && Fits(c, e, j + used, a', room - |bytes|)
  {
    var (bytes, used) := Utf16Literal(c, j, e).value;
    // the unit that holds the `u`: it starts at j (aligned) or is the `u` itself
    var b := j + 2;
    assert FindEnd(c, b) == Some(e);
    assert Units(c, b, e) + 1 <= room;
    var hex := c[j + 2..j + 6];
    if AllHex(hex) {
      assert forall i :: b <= i < b + 4 ==> c[i] == hex[i - b];
      PassOnePlain(c, b, e, 4);
      a' := j + 6;
      if used == 12 {
        var hex2 := c[j + 8..j + 12];
        assert FindEnd(c, j + 8) == Some(e);
        assert forall i :: j + 8 <= i < j + 12 ==> c[i] == hex2[i - (j + 8)];
        PassOnePlain(c, j + 8, e, 4);
        a' := j + 12;
      }
    } else {
      a' := PassOneMeets(c, b, e, j + 6);
    }
  }

  lemma {:induction false} DecodeFits(c: seq<byte>, e: nat, j: nat, a: nat, room: int)
    requires e < |c| && Fits(c, e, j, a, room) && Decode(c, j, e).Some?
    ensures |Decode(c, j, e).value| <= room
    decreases e - j
  {
    if j < e {
      if c[j] != BACKSLASH {
        FitsPlain(c, e, j, a, room);
        DecodeFits(c, e, j + 1, j + 1, room - 1);
      } else if ShortEscape(c[j + 1]).Some? {
        var a' := FitsShort(c, e, j, a, room);
        if j + 2 <= e {
          DecodeFits(c, e, j + 2, a', room - 1);
        }
      } else {
        var (bytes, used) := Utf16Literal(c, j, e).value;
        var a' := FitsLiteral(c, e, j, a, room);
        DecodeFits(c, e, j + used, a', room - |bytes|);
      }
    }
  }

  /**
    For every input, well-formed or not, pass two produces no more bytes than pass one counted,
    even where the two split the escapes at different places.
   */
  lemma PassTwoFits(c: seq<byte>, start: nat, e: nat)
    requires FindEnd(c, start) == Some(e) && Decode(c, start, e).Some?
    ensures |Decode(c, start, e).value| <= Units(c, start, e) <= e - start
  {
    DecodeFits(c, e, start, start, Units(c, start, e));
    UnitsBound(c, start, e);
  }

  //
  // What well-formed literals mean
  //

  /** One element of a well-formed literal body (RFC 8259 section 7). */
  datatype Piece =
    | Raw(b: byte)
    | Short(code: byte)
    | Code(hex: seq<byte>)
    | Pair(high: seq<byte>, low: seq<byte>)
  {
    ghost predicate WellFormed() {
      match this
      case Raw(b) => b != QUOTE && b != BACKSLASH
      case Short(code) => ShortEscape(code).Some?
      case Code(hex) => |hex| == 4 && AllHex(hex) && IsScalar(HexValue(hex))
      case Pair(high, low) =>
        && |high| == 4 && AllHex(high) && IsHighSurrogate(HexValue(high))
        && |low| == 4 && AllHex(low) && IsLowSurrogate(HexValue(low))
    }

    /** The bytes of the literal that spell this piece. */
    ghost function Text(): (t: seq<byte>) {
      match this
      case Raw(b) => [b]
      case Short(code) => [BACKSLASH, code]
      case Code(hex) => [BACKSLASH, LOWER_U] + hex
      case Pair(high, low) => [BACKSLASH, LOWER_U] + high + [BACKSLASH, LOWER_U] + low
    }

    /** The bytes of the string it stands for. */
    ghost function Meaning(): (m: seq<byte>)
      requires WellFormed()
    {
      match this
      case Raw(b) => [b]
      case Short(code) => [ShortEscape(code).value]
      case Code(hex) => Utf8(HexValue(hex))
      case Pair(high, low) => Utf8(FromSurrogates(HexValue(high), HexValue(low)))
    }
  }

  ghost predicate AllWellFormed(ps: seq<Piece>) {
    forall i :: 0 <= i < |ps| ==> ps[i].WellFormed()
  }

  ghost function TextOf(ps: seq<Piece>): (t: seq<byte>) {
    if ps == [] then [] else ps[0].Text() + TextOf(ps[1..])
  }

  ghost function MeaningOf(ps: seq<Piece>): (m: seq<byte>)
    requires AllWellFormed(ps)
  {
    if ps == [] then [] else ps[0].Meaning() + MeaningOf(ps[1..])
  }

  lemma FindEndPastHex(c: seq<byte>, j: nat)
    requires j + 4 <= |c| && AllHex(c[j..j + 4])
    ensures FindEnd(c, j) == FindEnd(c, j + 4)
  {
    assert forall i :: j <= i < j + 4 ==> c[i] == c[j..j + 4][i - j];
    assert HexDigit(c[j]).Some? && HexDigit(c[j + 1]).Some?;
    assert HexDigit(c[j + 2]).Some? && HexDigit(c[j + 3]).Some?;
    assert FindEnd(c, j) == FindEnd(c, j + 1) == FindEnd(c, j + 2);
    assert FindEnd(c, j + 2) == FindEnd(c, j + 3) == FindEnd(c, j + 4);
  }

  /** Both passes take one well-formed piece in one go. */
  lemma OnePiece(c: seq<byte>, j: nat, e: nat, p: Piece)
    requires p.WellFormed() && e < |c| && j + |p.Text()| <= e
    requires c[j..j + |p.Text()|] == p.Text()
    ensures FindEnd(c, j) == FindEnd(c, j + |p.Text()|)
    ensures Decode(c, j, e) == Prepend(p.Meaning(), Decode(c, j + |p.Text()|, e))
  {
    match p
    case Raw(b) => assert c[j] == c[j..j + 1][0];
    case Short(code) => assert c[j] == c[j..j + 2][0] && c[j + 1] == c[j..j + 2][1];
    case Code(hex) =>
      SliceSplit(c, j, j + 6, [BACKSLASH, LOWER_U], hex);
      EscapeAt(c, j);
      FindEndPastHex(c, j + 2);
    case Pair(high, low) => OnePair(c, j, e, high, low);
  }

  lemma EscapeAt(c: seq<byte>, j: nat)
    requires j + 2 <= |c| && c[j..j + 2] == [BACKSLASH, LOWER_U]
    ensures c[j] == BACKSLASH && c[j + 1] == LOWER_U
  {
    assert c[j] == c[j..j + 2][0] && c[j + 1] == c[j..j + 2][1];
  }

  lemma OnePair(c: seq<byte>, j: nat, e: nat, high: seq<byte>, low: seq<byte>)
    requires Pair(high, low).WellFormed() && e < |c| && j + 12 <= e
    requires c[j..j + 12] == Pair(high, low).Text()
    ensures FindEnd(c, j) == FindEnd(c, j + 12)
    ensures Decode(c, j, e) == Prepend(Pair(high, low).Meaning(), Decode(c, j + 12, e))
  {
    var mark: seq<byte> := [BACKSLASH, LOWER_U];
    SliceSplit(c, j, j + 12, mark + high + mark, low);
    SliceSplit(c, j, j + 8, mark + high, mark);
    SliceSplit(c, j, j + 6, mark, high);
    EscapeAt(c, j);
    EscapeAt(c, j + 6);
    FindEndPastHex(c, j + 2);
    FindEndPastHex(c, j + 8);
  }

  lemma SliceSplit(c: seq<byte>, j: nat, e: nat, front: seq<byte>, back: seq<byte>)
    requires j <= e <= |c| && c[j..e] == front + back
    ensures j + |front| + |back| == e
    ensures c[j..j + |front|] == front && c[j + |front|..e] == back
  {
    assert |c[j..e]| == |front| + |back|;
    assert c[j..j + |front|] == c[j..e][..|front|];
    assert c[j + |front|..e] == c[j..e][|front|..];
  }

  /** From `j` the literal ends at `e` and decodes to `m`. Kept folded; `Unfold(0)` opens it. */
  ghost predicate DecodesAs(c: seq<byte>, j: nat, e: nat, m: seq<byte>) {
    forall n: nat {:trigger Unfold(n)} :: Unfold(n) ==>
      e < |c| && FindEnd(c, j) == Some(e) && Decode(c, j, e) == Some(m)
  }

  lemma OnePieceMore(c: seq<byte>, j: nat, k: nat, e: nat, p: Piece, m: seq<byte>)
    requires p.WellFormed() && e < |c| && k == j + |p.Text()| <= e && c[j..k] == p.Text()
    ensures DecodesAs(c, k, e, m) ==> DecodesAs(c, j, e, p.Meaning() + m)
  {
    OnePiece(c, j, e, p);
    assert Unfold(0);
  }

  lemma NoPieceMore(c: seq<byte>, e: nat)
    requires e < |c| && c[e] == QUOTE
    ensures DecodesAs(c, e, e, [])
  {
  }

  lemma FirstPiece(c: seq<byte>, j: nat, e: nat, ps: seq<Piece>) returns (k: nat)
    requires AllWellFormed(ps) && ps != [] && e < |c|
    requires j + |TextOf(ps)| == e && c[j..e] == TextOf(ps)
    ensures ps[0].WellFormed() && k == j + |ps[0].Text()| <= e && c[j..k] == ps[0].Text()
    ensures AllWellFormed(ps[1..]) && k + |TextOf(ps[1..])| == e && c[k..e] == TextOf(ps[1..])
    ensures MeaningOf(ps) == ps[0].Meaning() + MeaningOf(ps[1..])
  {
    k := j + |ps[0].Text()|;
    SliceSplit(c, j, e, ps[0].Text(), TextOf(ps[1..]));
  }

  lemma {:induction false} PiecesDecode(c: seq<byte>, j: nat, e: nat, ps: seq<Piece>)
    requires AllWellFormed(ps) && e < |c| && c[e] == QUOTE
    requires j + |TextOf(ps)| == e && c[j..e] == TextOf(ps)
    ensures DecodesAs(c, j, e, MeaningOf(ps))
    decreases |ps|
  {
    if ps == [] {
      NoPieceMore(c, e);
    } else {
      var k := FirstPiece(c, j, e, ps);
      PiecesDecode(c, k, e, ps[1..]);
      OnePieceMore(c, j, k, e, ps[0], MeaningOf(ps[1..]));
    }
  }

  /**
    A body made of well-formed pieces ends where it should and decodes to its meaning: escapes,
    surrogate pairs and raw bytes in any order.
   */
  lemma DecodePieces(c: seq<byte>, j: nat, e: nat, ps: seq<Piece>)
    requires AllWellFormed(ps) && e < |c| && c[e] == QUOTE
    requires j + |TextOf(ps)| == e && c[j..e] == TextOf(ps)
    ensures FindEnd(c, j) == Some(e) && Decode(c, j, e) == Some(MeaningOf(ps))
  {
    PiecesDecode(c, j, e, ps);
    assert Unfold(0);
  }

  //
  // The escaper
  //

  /** Extra bytes `print_string_ptr` reserves for one input byte. */
  function EscapeExtra(b: byte): (n: nat) {
    if b == QUOTE || b == BACKSLASH || b in {8, 12, 10, 13, 9} then 1
    else if b < 32 then 5
    else 0
  }

  function EscapeExtras(s: seq<byte>): (n: nat) {
    if s == [] then 0 else EscapeExtras(s[..|s| - 1]) + EscapeExtra(s[|s| - 1])
  }

  function LowerHex(d: nat): (b: byte)
    requires d < 16
    ensures HexDigit(b) == Some(d)
  {
    if d < 10 then 0x30 + d else 0x61 + d - 10
  }

  /** `%04x` of a control byte. */
  function Hex4Text(b: byte): (t: seq<byte>)
    requires b < 32
    ensures |t| == 4
  {
    if b < 16 then [0x30, 0x30, 0x30, LowerHex(b)] else [0x30, 0x30, 0x31, LowerHex(b - 16)]
  }

  /** How the escaper spells one byte. */
  ghost function PieceOf(b: byte): (p: Piece) {
    if b > 31 && b != QUOTE && b != BACKSLASH then Raw(b)
    else if b == BACKSLASH || b == QUOTE then Short(b)
    else if b == 8 then Short(0x62)
    else if b == 12 then Short(0x66)
    else if b == 10 then Short(0x6E)
    else if b == 13 then Short(0x72)
    else if b == 9 then Short(0x74)
    else Code(Hex4Text(b))
  }

  ghost function PiecesOf(s: seq<byte>): (ps: seq<Piece>) {
    seq(|s|, i requires 0 <= i < |s| => PieceOf(s[i]))
  }

  function EscapeByte(b: byte): (t: seq<byte>) {
    if b > 31 && b != QUOTE && b != BACKSLASH then [b]
    else if b == BACKSLASH || b == QUOTE then [BACKSLASH, b]
    else if b == 8 then [BACKSLASH, 0x62]
    else if b == 12 then [BACKSLASH, 0x66]
    else if b == 10 then [BACKSLASH, 0x6E]
    else if b == 13 then [BACKSLASH, 0x72]
    else if b == 9 then [BACKSLASH, 0x74]
    else [BACKSLASH, LOWER_U] + Hex4Text(b)
  }

  function Escape(s: seq<byte>): (t: seq<byte>) {
    if s == [] then [] else Escape(s[..|s| - 1]) + EscapeByte(s[|s| - 1])
  }

  /** The literal the printer writes for a string. */
  function Quoted(s: seq<byte>): (t: seq<byte>) { [QUOTE] + (Escape(s) + [QUOTE]) }

  /** The length computed before the copy loop is the length the copy loop writes. */
  lemma {:induction false} EscapeLength(s: seq<byte>)
    ensures |Escape(s)| == |s| + EscapeExtras(s)
  {
    if s != [] {
      EscapeLength(s[..|s| - 1]);
    }
  }

  lemma EscapeByteHasNoNul(b: byte)
    ensures 0 !in EscapeByte(b)
  {
  }

  lemma {:induction false} EscapeHasNoNul(s: seq<byte>)
    ensures 0 !in Escape(s)
  {
    if s != [] {
      EscapeHasNoNul(s[..|s| - 1]);
      EscapeByteHasNoNul(s[|s| - 1]);
    }
  }

  lemma Hex4TextValue(b: byte)
    requires b < 32
    ensures AllHex(Hex4Text(b)) && HexValue(Hex4Text(b)) == b
  {
    var t := Hex4Text(b);
    assert t[..3][..2] == t[..2] && t[..2][..1] == t[..1] && t[..1][..0] == [];
    assert HexValue(t[..1]) == 0;
    assert HexValue(t[..2]) == 0;
    assert HexValue(t[..3]) == if b < 16 then 0 else 1;
  }

  lemma PieceOfByte(b: byte)
    ensures PieceOf(b).WellFormed() && PieceOf(b).Text() == EscapeByte(b)
    ensures PieceOf(b).Meaning() == [b]
  {
    if b < 32 {
      Hex4TextValue(b);
    }
  }

  lemma Assoc(a: seq<byte>, b: seq<byte>, c: seq<byte>)
    ensures (a + b) + c == a + (b + c)
  {
  }

  lemma {:induction false} TextOfAppend(ps: seq<Piece>, p: Piece)
    ensures TextOf(ps + [p]) == TextOf(ps) + p.Text()
  {
    if ps == [] {
      assert ps + [p] == [p];
      assert [p][1..] == [];
    } else {
      assert (ps + [p])[1..] == ps[1..] + [p];
      TextOfAppend(ps[1..], p);
      Assoc(ps[0].Text(), TextOf(ps[1..]), p.Text());
    }
  }

  lemma {:induction false} MeaningOfAppend(ps: seq<Piece>, p: Piece)
    requires AllWellFormed(ps) && p.WellFormed()
    ensures MeaningOf(ps + [p]) == MeaningOf(ps) + p.Meaning()
  {
    if ps == [] {
      assert ps + [p] == [p];
      assert [p][1..] == [];
    } else {
      assert (ps + [p])[1..] == ps[1..] + [p];
      MeaningOfAppend(ps[1..], p);
      Assoc(ps[0].Meaning(), MeaningOf(ps[1..]), p.Meaning());
    }
  }

  lemma PiecesOfSnoc(s: seq<byte>, n: nat)
    requires |s| == n + 1
    ensures PiecesOf(s) == PiecesOf(s[..n]) + [PieceOf(s[n])]
  {
  }

  lemma {:induction false} EscapeIsText(s: seq<byte>)
    ensures AllWellFormed(PiecesOf(s)) && TextOf(PiecesOf(s)) == Escape(s)
  {
    if s != [] {
      var n := |s| - 1;
      EscapeIsText(s[..n]);
      PieceOfByte(s[n]);
      PiecesOfSnoc(s, n);
      TextOfAppend(PiecesOf(s[..n]), PieceOf(s[n]));
    }
  }

  lemma {:induction false} PiecesMean(s: seq<byte>)
    requires AllWellFormed(PiecesOf(s))
    ensures MeaningOf(PiecesOf(s)) == s
  {
    if s != [] {
      var n := |s| - 1;
      PiecesOfSnoc(s, n);
      var ps := PiecesOf(s);
      assert PiecesOf(s[..n]) == ps[..n];
      PiecesMean(s[..n]);
      PieceOfByte(s[n]);
      MeaningOfAppend(PiecesOf(s[..n]), PieceOf(s[n]));
    }
  }

  /** The escaped text is a sequence of well-formed pieces, and they mean the original bytes. */
  lemma EscapeMeans(s: seq<byte>)
    ensures AllWellFormed(PiecesOf(s)) && TextOf(PiecesOf(s)) == Escape(s)
    ensures MeaningOf(PiecesOf(s)) == s
  {
    EscapeIsText(s);
    PiecesMean(s);
  }

  /** Parsing undoes printing for every string, at any place of any buffer. */
  lemma StringRoundTrip(c: seq<byte>, off: nat, s: seq<byte>)
    requires off + |Quoted(s)| <= |c| && c[off..off + |Quoted(s)|] == Quoted(s)
    ensures StringAt(c, off) == Some((s, off + |Quoted(s)|))
  {
    QuotedInPlace(c, off, Escape(s));
    BodyDecodes(c, off + 1, off + 1 + |Escape(s)|, s);
  }

  lemma BodyDecodes(c: seq<byte>, j: nat, e: nat, s: seq<byte>)
    requires j + |Escape(s)| == e < |c| && c[j..e] == Escape(s) && c[e] == QUOTE
    ensures FindEnd(c, j) == Some(e) && Decode(c, j, e) == Some(s)
  {
    EscapeMeans(s);
    DecodePieces(c, j, e, PiecesOf(s));
  }

  lemma QuotedInPlace(c: seq<byte>, off: nat, body: seq<byte>)
    requires off + |body| + 2 <= |c| && c[off..off + |body| + 2] == [QUOTE] + (body + [QUOTE])
    ensures var e := off + 1 + |body|;
            c[off] == QUOTE && c[e] == QUOTE && c[off + 1..e] == body
  {
    var end := off + |body| + 2;
    SliceSplit(c, off, end, [QUOTE], body + [QUOTE]);
    SliceSplit(c, off + 1, end, body, [QUOTE]);
    assert c[off] == c[off..off + 1][0];
    assert c[end - 1] == c[end - 1..end][0];
  }
}
