/**
  What a string literal means by the tables of RFC 8259 section 7 and RFC 2781 section 2.2, written
  out here, and that the parser of literals reads every literal by these tables.
 */
module JsonEscapes {
  import opened Base
  import opened JsonText

  /** The hexadecimal digits of either case, each at the index that is its value. */
  const UPPER: seq<byte> :=
    [0x30, 0x31, 0x32, 0x33, 0x34, 0x35, 0x36, 0x37, 0x38, 0x39, 0x41, 0x42, 0x43, 0x44, 0x45, 0x46]
  const LOWER: seq<byte> :=
    [0x30, 0x31, 0x32, 0x33, 0x34, 0x35, 0x36, 0x37, 0x38, 0x39, 0x61, 0x62, 0x63, 0x64, 0x65, 0x66]

  /** The one-character escapes and what they stand for. */
  const SHORT_CODES: seq<byte> := [0x22, 0x5C, 0x2F, 0x62, 0x66, 0x6E, 0x72, 0x74]
  const SHORT_BYTES: seq<byte> := [0x22, 0x5C, 0x2F, 8, 12, 10, 13, 9]

  predicate DigitFor(b: byte, d: nat) { d < 16 && (b == UPPER[d] || b == LOWER[d]) }

  /** The digits spell `v`, in upper, lower or mixed case: the last one is the remainder by sixteen. */
  predicate Spells(hex: seq<byte>, v: nat) {
    if hex == [] then v == 0
    else DigitFor(hex[|hex| - 1], v % 16) && Spells(hex[..|hex| - 1], v / 16)
  }

  predicate Four(hex: seq<byte>, v: nat) { |hex| == 4 && Spells(hex, v) }

  /** Four digits that spell the second half of a surrogate pair. */
  ghost predicate SecondHalf(hex: seq<byte>) { exists v: nat :: Four(hex, v) && 0xDC00 <= v < 0xE000 }

  /** One element of a literal's body. */
  datatype Element =
    | Plain(b: byte)
    | Named(i: nat)
    | Unit(v: nat, hex: seq<byte>)
    | Units(cp: nat, high: seq<byte>, low: seq<byte>)
  {
    predicate Valid() {
      match this
      case Plain(b) => b != 0x22 && b != 0x5C
      case Named(i) => i < 8
      case Unit(v, hex) => Four(hex, v) && v < 0x10000 && !(0xD800 <= v < 0xE000)
      case Units(cp, high, low) =>
        && 0x10000 <= cp < 0x110000
        && Four(high, 0xD800 + (cp - 0x10000) / 0x400) && Four(low, 0xDC00 + (cp - 0x10000) % 0x400)
    }

    function Spelled(): (t: seq<byte>)
      requires Valid()
    {
      match this
      case Plain(b) => [b]
      case Named(i) => [0x5C, SHORT_CODES[i]]
      case Unit(_, hex) => [0x5C, 0x75] + hex
      case Units(_, high, low) => [0x5C, 0x75] + high + [0x5C, 0x75] + low
    }

    /** The bytes it stands for: itself, the named one, or the UTF-8 form of its code point. */
    function Means(): (m: seq<byte>)
      requires Valid()
    {
      match this
      case Plain(b) => [b]
      case Named(i) => [SHORT_BYTES[i]]
      case Unit(v, _) => Utf8(v)
      case Units(cp, _, _) => Utf8(cp)
    }
  }

  predicate AllValid(es: seq<Element>) { forall i :: 0 <= i < |es| ==> es[i].Valid() }

  function AllSpelled(es: seq<Element>): (t: seq<byte>)
    requires AllValid(es)
  {
    if es == [] then [] else es[0].Spelled() + AllSpelled(es[1..])
  }

  function AllMean(es: seq<Element>): (m: seq<byte>)
    requires AllValid(es)
  {
    if es == [] then [] else es[0].Means() + AllMean(es[1..])
  }

  //
  // The tables and the parser's digits agree
  //

  lemma DigitIs(b: byte, d: nat)
    requires DigitFor(b, d)
    ensures HexDigit(b) == Some(d)
  {
  }

  lemma {:induction false} SpellsIs(hex: seq<byte>, v: nat)
    requires Spells(hex, v)
    ensures AllHex(hex) && HexValue(hex) == v
  {
    if hex != [] {
      var n := |hex| - 1;
      SpellsIs(hex[..n], v / 16);
      DigitIs(hex[n], v % 16);
      assert forall i :: 0 <= i < n ==> hex[..n][i] == hex[i];
    }
  }

  lemma DigitAt(b: byte)
    requires HexDigit(b).Some?
    ensures DigitFor(b, HexDigit(b).value)
  {
  }

  lemma LastDigit(v: nat, d: nat)
    requires d < 16
    ensures (v * 16 + d) % 16 == d && (v * 16 + d) / 16 == v
  {
  }

  lemma {:induction false} SpellsValue(hex: seq<byte>)
    requires AllHex(hex)
    ensures Spells(hex, HexValue(hex))
  {
    if hex != [] {
      var n := |hex| - 1;
      SpellsValue(hex[..n]);
      DigitAt(hex[n]);
      LastDigit(HexValue(hex[..n]), HexDigit(hex[n]).value);
    }
  }

  lemma PairIs(cp: nat)
    requires 0x10000 <= cp < 0x110000
    ensures var hi, lo := 0xD800 + (cp - 0x10000) / 0x400, 0xDC00 + (cp - 0x10000) % 0x400;
            IsHighSurrogate(hi) && IsLowSurrogate(lo) && FromSurrogates(hi, lo) == cp
  {
  }

  /** The parser's view of an element. */
  lemma PieceFor(e: Element) returns (p: Piece)
    requires e.Valid()
    ensures p.WellFormed() && p.Text() == e.Spelled() && p.Meaning() == e.Means()
  {
    match e
    case Plain(b) => p := Raw(b);
    case Named(i) => p := Short(SHORT_CODES[i]);
    case Unit(v, hex) =>
      SpellsIs(hex, v);
      p := Code(hex);
    case Units(cp, high, low) =>
      SpellsIs(high, 0xD800 + (cp - 0x10000) / 0x400);
      SpellsIs(low, 0xDC00 + (cp - 0x10000) % 0x400);
      PairIs(cp);
      p := Pair(high, low);
  }

  lemma {:induction false} PiecesFor(es: seq<Element>) returns (ps: seq<Piece>)
    requires AllValid(es)
    ensures AllWellFormed(ps) && TextOf(ps) == AllSpelled(es) && MeaningOf(ps) == AllMean(es)
  {
    if es == [] {
      ps := [];
    } else {
      var p := PieceFor(es[0]);
      var rest := PiecesFor(es[1..]);
      ps := [p] + rest;
      assert ps[1..] == rest;
    }
  }

  /**
    Every literal, at any place of any buffer, is read as the tables say: escapes in either case,
    surrogate pairs, named escapes and plain bytes, in any order.
   */
  lemma LiteralMeans(c: seq<byte>, off: nat, es: seq<Element>)
    requires AllValid(es) && off + |AllSpelled(es)| + 2 <= |c|
    requires c[off..off + |AllSpelled(es)| + 2] == [0x22] + (AllSpelled(es) + [0x22])
    ensures StringAt(c, off) == Some((AllMean(es), off + |AllSpelled(es)| + 2))
  {
    var body, m := AllSpelled(es), AllMean(es);
    var ps := PiecesFor(es);
    BodyMeans(c, off, body, ps);
  }

  lemma BodyMeans(c: seq<byte>, off: nat, body: seq<byte>, ps: seq<Piece>)
    requires AllWellFormed(ps) && TextOf(ps) == body
    requires off + |body| + 2 <= |c| && c[off..off + |body| + 2] == [0x22] + (body + [0x22])
    ensures StringAt(c, off) == Some((MeaningOf(ps), off + |body| + 2))
  {
    var e := off + 1 + |body|;
    QuotedInPlace(c, off, body);
    PiecesDecode(c, off + 1, e, ps);
    StringIs(c, off, e, MeaningOf(ps));
  }

  lemma StringIs(c: seq<byte>, off: nat, e: nat, m: seq<byte>)
    requires off < |c| && c[off] == 0x22 && DecodesAs(c, off + 1, e, m)
    ensures StringAt(c, off) == Some((m, e + 1))
  {
    assert Unfold(0);
  }

  //
  // What is not a literal
  //

  /** The escape at `j` is one that the parser must turn away. */
  ghost predicate BadEscape(c: seq<byte>, j: nat, v: nat)
    requires j + 1 < |c|
  {
    && c[j] == 0x5C
    && (|| (c[j + 1] !in SHORT_CODES && c[j + 1] != 0x75)
        || (c[j + 1] == 0x75 && j + 6 <= |c| && Four(c[j + 2..j + 6], v) && 0xDC00 <= v < 0xE000)
        || (&& c[j + 1] == 0x75 && j + 6 <= |c| && Four(c[j + 2..j + 6], v) && 0xD800 <= v < 0xDC00
            && (j + 12 <= |c| ==> c[j + 6] != 0x5C || c[j + 7] != 0x75
                                  || !SecondHalf(c[j + 8..j + 12]))))
  }

  lemma NotShort(b: byte)
    ensures ShortEscape(b).Some? <==> b in SHORT_CODES
  {
    assert SHORT_CODES[0] == 0x22 && SHORT_CODES[1] == 0x5C && SHORT_CODES[2] == 0x2F && SHORT_CODES[3] == 0x62;
    assert SHORT_CODES[4] == 0x66 && SHORT_CODES[5] == 0x6E && SHORT_CODES[6] == 0x72 && SHORT_CODES[7] == 0x74;
  }

  lemma BadEscapeFails(c: seq<byte>, j: nat, e: nat, v: nat)
    requires j < e < |c| && BadEscape(c, j, v)
    ensures Decode(c, j, e) == None
  {
    NotShort(c[j + 1]);
    if c[j + 1] == 0x75 && j + 6 <= |c| && Four(c[j + 2..j + 6], v) {
      SpellsIs(c[j + 2..j + 6], v);
      if j + 12 <= |c| && AllHex(c[j + 8..j + 12]) {
        SpellsValue(c[j + 8..j + 12]);
        assert Four(c[j + 8..j + 12], HexValue(c[j + 8..j + 12]));
      }
    }
  }

  /** A literal is turned away where it meets such an escape, whatever came before and comes after it. */
  lemma BadLiteralFails(c: seq<byte>, off: nat, es: seq<Element>, v: nat)
    requires AllValid(es)
    requires var j := off + 1 + |AllSpelled(es)|;
             && j + 1 < |c| && c[off..j] == [0x22] + AllSpelled(es) && BadEscape(c, j, v)
    ensures StringAt(c, off) == None
  {
    var j := off + 1 + |AllSpelled(es)|;
    QuoteFirst(c, off, j, AllSpelled(es));
    BadBodyFails(c, off + 1, j, es, v);
  }

  lemma QuoteFirst(c: seq<byte>, off: nat, j: nat, body: seq<byte>)
    requires off + 1 + |body| == j <= |c| && c[off..j] == [0x22] + body
    ensures c[off] == 0x22 && c[off + 1..j] == body
  {
    SliceSplit(c, off, j, [0x22], body);
    assert c[off] == c[off..off + 1][0];
  }

  lemma BadBodyFails(c: seq<byte>, i: nat, j: nat, es: seq<Element>, v: nat)
    requires AllValid(es) && i + |AllSpelled(es)| == j && j + 1 < |c| && c[i..j] == AllSpelled(es)
    requires BadEscape(c, j, v)
    ensures FindEnd(c, i).Some? ==> Decode(c, i, FindEnd(c, i).value) == None
  {
    if FindEnd(c, i).Some? {
      Passes(c, i, j, es, FindEnd(c, i).value);
      BadEscapeFails(c, j, FindEnd(c, i).value, v);
    }
  }

  /** Both passes run over the elements in front of a backslash. */
  lemma {:induction false} Passes(c: seq<byte>, i: nat, j: nat, es: seq<Element>, e: nat)
    requires AllValid(es) && i + |AllSpelled(es)| == j && j + 1 < |c| && c[i..j] == AllSpelled(es) && c[j] == 0x5C
    requires FindEnd(c, i) == Some(e)
    ensures j < e && FindEnd(c, j) == Some(e)
    ensures Decode(c, j, e) == None ==> Decode(c, i, e) == None
    decreases |es|
  {
    if es != [] {
      var text := FirstText(c, i, j, es);
      PassesOne(c, i, es[0], text);
      Passes(c, i + |text|, j, es[1..], e);
      FailsBefore(c, i, e, es[0], text);
    }
  }

  lemma FirstText(c: seq<byte>, i: nat, j: nat, es: seq<Element>) returns (text: seq<byte>)
    requires AllValid(es) && es != [] && i + |AllSpelled(es)| == j <= |c| && c[i..j] == AllSpelled(es)
    ensures text == es[0].Spelled() && i + |text| <= j && c[i..i + |text|] == text
    ensures i + |text| + |AllSpelled(es[1..])| == j && c[i + |text|..j] == AllSpelled(es[1..])
  {
    text := es[0].Spelled();
    SliceSplit(c, i, j, text, AllSpelled(es[1..]));
  }

  lemma PassesOne(c: seq<byte>, i: nat, x: Element, text: seq<byte>)
    requires x.Valid() && text == x.Spelled() && i + |text| < |c| && c[i..i + |text|] == text
    ensures FindEnd(c, i) == FindEnd(c, i + |text|)
  {
    var p := PieceFor(x);
    OnePiece(c, i, |c| - 1, p);
  }

  lemma FailsBefore(c: seq<byte>, i: nat, e: nat, x: Element, text: seq<byte>)
    requires x.Valid() && text == x.Spelled() && i + |text| <= e < |c| && c[i..i + |text|] == text
    ensures Decode(c, i + |text|, e) == None ==> Decode(c, i, e) == None
  {
    var p := PieceFor(x);
    OnePiece(c, i, e, p);
  }

  lemma NotHex(hex: seq<byte>)
    requires |hex| == 4 && forall v: nat :: !Four(hex, v)
    ensures !AllHex(hex)
  {
    if AllHex(hex) {
      SpellsValue(hex);
      var v := HexValue(hex);
      assert Four(hex, v);
    }
  }

  /** Four bytes that are no digits all read as U+0000, so the C string ends there. */
  lemma MalformedUnitIsNul(c: seq<byte>, off: nat, hex: seq<byte>)
    requires |hex| == 4 && 0x22 !in hex && 0x5C !in hex && forall v: nat :: !Four(hex, v)
    requires off + 8 <= |c| && c[off..off + 8] == [0x22] + ([0x5C, 0x75] + hex + [0x22])
    ensures StringAt(c, off) == Some(([0], off + 8))
  {
    QuotedInPlace(c, off, [0x5C, 0x75] + hex);
    SliceSplit(c, off + 1, off + 7, [0x5C, 0x75], hex);
    EscapeAt(c, off + 1);
    NotHex(hex);
    assert forall i :: 0 <= i < 4 ==> c[off + 3 + i] == hex[i];
    assert c[off + 3] in hex && c[off + 4] in hex && c[off + 5] in hex && c[off + 6] in hex;
    assert FindEnd(c, off + 1) == FindEnd(c, off + 3);
    assert FindEnd(c, off + 3) == FindEnd(c, off + 4) == FindEnd(c, off + 5);
    assert FindEnd(c, off + 5) == FindEnd(c, off + 6) == FindEnd(c, off + 7) == Some(off + 7);
    assert Utf16Literal(c, off + 1, off + 7) == Some(([0], 6));
    assert Decode(c, off + 7, off + 7) == Some([]);
    var nul: seq<byte> := [0];
    assert nul + [] == nul;
  }
}
