/**
  Decimal numerals as `strtod` takes them, with their signs, points and powers of ten written out,
  and that the parser of numbers reads every one of them as what it says.
 */
module JsonNumerals {
  import opened Base
  import opened JsonNumber
  import JsonTree

  predicate Digit(b: byte) { 0x30 <= b < 0x3A }

  predicate Digits(s: seq<byte>) { forall i :: 0 <= i < |s| ==> Digit(s[i]) }

  function Value(s: seq<byte>): (v: nat)
    requires Digits(s)
  {
    if s == [] then 0 else 10 * Value(s[..|s| - 1]) + (s[|s| - 1] - 0x30)
  }

  predicate Signs(s: seq<byte>) { s == [] || s == [0x2B] || s == [0x2D] }

  datatype Power = Power(mark: byte, sign: seq<byte>, digits: seq<byte>)

  datatype Numeral = Numeral(sign: seq<byte>, whole: seq<byte>, point: bool, frac: seq<byte>, power: Option<Power>)

  predicate Valid(n: Numeral) {
    && Signs(n.sign) && Digits(n.whole) && Digits(n.frac)
    && n.whole + n.frac != [] && (!n.point ==> n.frac == [])
    && (n.power.Some? ==> ValidPower(n.power.value))
  }

  predicate ValidPower(p: Power) {
    (p.mark == 0x65 || p.mark == 0x45) && Signs(p.sign) && p.digits != [] && Digits(p.digits)
  }

  function PowerText(p: Option<Power>): (t: seq<byte>) {
    if p.None? then [] else [p.value.mark] + (p.value.sign + p.value.digits)
  }

  function PointText(point: bool, frac: seq<byte>): (t: seq<byte>) { if point then [0x2E] + frac else [] }

  function Text(n: Numeral): (t: seq<byte>) {
    n.sign + (n.whole + (PointText(n.point, n.frac) + PowerText(n.power)))
  }

  function PowerOf(p: Option<Power>): (e: int)
    requires p.Some? ==> Digits(p.value.digits)
  {
    if p.None? then 0
    else
      var v: int := Value(p.value.digits);
      if p.value.sign == [0x2D] then -v else v
  }

  /** The bytes begin a power of ten. */
  predicate BeginsPower(t: seq<byte>) {
    && |t| > 1 && (t[0] == 0x65 || t[0] == 0x45)
    && (Digit(t[1]) || (|t| > 2 && (t[1] == 0x2B || t[1] == 0x2D) && Digit(t[2])))
  }

  /** What follows does not carry the numeral on. */
  predicate Stops(n: Numeral, rest: seq<byte>) {
    && (rest == [] || !Digit(rest[0]))
    && (n.power.None? ==> !BeginsPower(rest) && (!n.point ==> rest == [] || rest[0] != 0x2E))
  }

  function Magnitude(n: Numeral): (v: nat)
    requires Digits(n.whole) && Digits(n.frac)
  {
    assert forall i :: 0 <= i < |n.whole + n.frac| ==>
        (n.whole + n.frac)[i] == if i < |n.whole| then n.whole[i] else n.frac[i - |n.whole|];
    Value(n.whole + n.frac)
  }

  //
  // The parts
  //

  lemma {:induction false} ValuesAgree(s: seq<byte>)
    requires Digits(s)
    ensures AllDigits(s) && DigitsValue(s) == Value(s)
  {
    if s != [] {
      ValuesAgree(s[..|s| - 1]);
    }
  }

  lemma LeadingAre(d: seq<byte>, tail: seq<byte>)
    requires Digits(d) && (tail == [] || !Digit(tail[0]))
    ensures Leading(d + tail) == d && PastDigits(d + tail) == tail
  {
    ValuesAgree(d);
    LeadingIs(d, tail);
  }

  lemma NoDigits(tail: seq<byte>)
    requires tail == [] || !Digit(tail[0])
    ensures Leading(tail) == [] && PastDigits(tail) == tail
  {
  }

  lemma SignSplit(sign: seq<byte>, w: seq<byte>)
    requires Signs(sign) && w != [] && Digit(w[0])
    ensures StartsWith(sign + w, MINUS) <==> sign == [0x2D]
    ensures StartsWith(sign + w, PLUS) <==> sign == [0x2B]
    ensures sign == [] ==> sign + w == w
    ensures sign != [] ==> (sign + w)[1..] == w
  {
  }

  lemma MarkSplit(mark: byte, v: seq<byte>)
    ensures ([mark] + v)[0] == mark && ([mark] + v)[1..] == v
    ensures v != [] ==> ([mark] + v)[2..] == v[1..]
  {
  }

  lemma PowerParts(u: seq<byte>, negative: bool, w: seq<byte>, d: seq<byte>)
    requires StartsWith(u, LOWER_E) || StartsWith(u, UPPER_E)
    requires negative == StartsWith(u[1..], MINUS) && |u| > 1
    requires w == if negative || StartsWith(u[1..], PLUS) then u[2..] else u[1..]
    requires Leading(w) == d && d != []
    ensures Exponent(u) == (Signed(negative, DigitsValue(d)), |u| - |w| + |d|)
  {
  }

  lemma PowerIs(p: Power, rest: seq<byte>)
    requires ValidPower(p) && (rest == [] || !Digit(rest[0]))
    ensures Exponent([p.mark] + (p.sign + (p.digits + rest)))
         == (PowerOf(Some(p)), 1 + |p.sign| + |p.digits|)
  {
    var w := p.digits + rest;
    assert w[0] == p.digits[0];
    SignSplit(p.sign, w);
    MarkSplit(p.mark, p.sign + w);
    LeadingAre(p.digits, rest);
    ValuesAgree(p.digits);
    PowerParts([p.mark] + (p.sign + w), p.sign == [0x2D], w, p.digits);
  }

  lemma PowerJoined(p: Power, rest: seq<byte>)
    ensures PowerText(Some(p)) + rest == [p.mark] + (p.sign + (p.digits + rest))
    ensures |PowerText(Some(p))| == 1 + |p.sign| + |p.digits|
  {
  }

  lemma NoPower(rest: seq<byte>)
    requires !BeginsPower(rest)
    ensures Exponent(rest) == (0, 0)
  {
    if |rest| > 1 {
      assert rest[1..][0] == rest[1];
    }
    if |rest| > 2 {
      assert rest[2..][0] == rest[2];
    }
  }

  /** Kept folded; `Unfold(7)` opens it. */
  ghost predicate PowerTaken(u: seq<byte>, x: int, used: nat) {
    forall k: nat {:trigger Unfold(k)} :: Unfold(k) && k == 7 ==> Exponent(u) == (x, used)
  }

  lemma PowersAre(n: Numeral, rest: seq<byte>)
    requires Valid(n) && Stops(n, rest)
    ensures PowerTaken(PowerText(n.power) + rest, PowerOf(n.power), |PowerText(n.power)|)
  {
    if n.power.Some? {
      PowerIs(n.power.value, rest);
      PowerJoined(n.power.value, rest);
    } else {
      assert PowerText(n.power) + rest == rest;
      NoPower(rest);
    }
  }

  lemma PartsAre(whole: seq<byte>, point: bool, frac: seq<byte>, u: seq<byte>)
    requires Digits(whole) && Digits(frac) && (!point ==> frac == [])
    requires (u == [] || !Digit(u[0])) && (!point ==> u == [] || u[0] != 0x2E)
    ensures Mantissa(whole + (PointText(point, frac) + u)) == (whole, frac, u)
  {
    var t := PointText(point, frac) + u;
    assert point ==> t == [0x2E] + (frac + u) && t[1..] == frac + u;
    assert !point ==> t == u;
    LeadingAre(whole, t);
    LeadingAre(frac, u);
  }

  /** Kept folded; `Unfold(5)` opens it. */
  ghost predicate Taken(s: seq<byte>, digits: seq<byte>, exp: int, used: nat) {
    forall k: nat {:trigger Unfold(k)} :: Unfold(k) && k == 5 ==> Unsigned(s) == Some((digits, exp, used))
  }

  lemma UnsignedAre(whole: seq<byte>, point: bool, frac: seq<byte>, u: seq<byte>, x: int, used: nat)
    requires Digits(whole) && Digits(frac) && whole + frac != [] && (!point ==> frac == [])
    requires (u == [] || !Digit(u[0])) && (!point ==> u == [] || u[0] != 0x2E)
    ensures var t := PointText(point, frac);
            PowerTaken(u, x, used) ==> Taken(whole + (t + u), whole + frac, x - |frac|, |whole| + |t| + used)
  {
    PartsAre(whole, point, frac, u);
    assert Unfold(7);
  }

  lemma SignsAre(sign: seq<byte>, s: seq<byte>)
    requires Signs(sign) && s != [] && s[0] != 0x2B && s[0] != 0x2D
    ensures Unsign(sign + s) == s && (StartsWith(sign + s, MINUS) <==> sign == [0x2D])
  {
    assert sign == [] ==> sign + s == s;
    assert sign != [] ==> (sign + s)[1..] == s;
  }

  /** Kept folded; `Unfold(6)` opens it. */
  ghost predicate ReadTo(r: seq<byte>, m: int, exp: int, used: nat) {
    forall k: nat {:trigger Unfold(k)} :: Unfold(k) && k == 6 ==> Strtod(r) == Some((Normal(m, exp), used))
  }

  function Minus(sign: seq<byte>, v: nat): (m: int) { if sign == [0x2D] then 0 - v else v }

  lemma SignedAre(sign: seq<byte>, s: seq<byte>, digits: seq<byte>, exp: int, used: nat)
    requires Signs(sign) && s != [] && s[0] != 0x2B && s[0] != 0x2D && Digits(digits)
    ensures Taken(s, digits, exp, used) ==> ReadTo(sign + s, Minus(sign, Value(digits)), exp, |sign| + used)
  {
    SignsAre(sign, s);
    ValuesAgree(digits);
    assert Unfold(5);
  }

  lemma TextJoined(n: Numeral, rest: seq<byte>)
    ensures var t, p := PointText(n.point, n.frac), PowerText(n.power);
            && Text(n) + rest == n.sign + (n.whole + (t + (p + rest)))
            && |Text(n)| == |n.sign| + (|n.whole| + |t| + |p|)
  {
  }

  lemma IsRead(r: seq<byte>, m: int, exp: int, used: nat)
    ensures ReadTo(r, m, exp, used) ==> Strtod(r) == Some((Normal(m, exp), used))
  {
    assert Unfold(6);
  }

  lemma FirstByte(whole: seq<byte>, point: bool, frac: seq<byte>, u: seq<byte>)
    requires Digits(whole) && whole + frac != [] && (!point ==> frac == [])
    ensures var s := whole + (PointText(point, frac) + u);
            s != [] && s[0] != 0x2B && s[0] != 0x2D
  {
    assert whole == [] ==> (whole + (PointText(point, frac) + u))[0] == 0x2E;
  }

  lemma BehindDigits(n: Numeral, rest: seq<byte>)
    requires Valid(n) && Stops(n, rest)
    ensures var u := PowerText(n.power) + rest;
            (u == [] || !Digit(u[0])) && (!n.point ==> u == [] || u[0] != 0x2E)
  {
    assert n.power.None? ==> PowerText(n.power) + rest == rest;
  }

  /** The digits of the numeral with what stands behind them; a contradiction, so that `Taken` stays folded. */
  lemma BodyTaken(n: Numeral, p: seq<byte>, rest: seq<byte>, s: seq<byte>, exp: int, used: nat)
    requires Valid(n) && Stops(n, rest) && p == PowerText(n.power) && s == n.whole + (PointText(n.point, n.frac) + (p + rest))
    requires exp == PowerOf(n.power) - |n.frac| && used == |n.whole| + |PointText(n.point, n.frac)| + |p|
    ensures !Taken(s, n.whole + n.frac, exp, used) ==> false
  {
    PowersAre(n, rest);
    BehindDigits(n, rest);
    UnsignedAre(n.whole, n.point, n.frac, p + rest, PowerOf(n.power), |p|);
  }

  /** The numeral without its sign, with what stands behind it. */
  lemma Body(n: Numeral, rest: seq<byte>, exp: int) returns (s: seq<byte>, used: nat)
    requires Valid(n) && Stops(n, rest) && exp == PowerOf(n.power) - |n.frac|
    ensures Text(n) + rest == n.sign + s && |Text(n)| == |n.sign| + used
    ensures s != [] && s[0] != 0x2B && s[0] != 0x2D
    ensures !Taken(s, n.whole + n.frac, exp, used) ==> false
  {
    var t, p := PointText(n.point, n.frac), PowerText(n.power);
    s, used := n.whole + (t + (p + rest)), |n.whole| + |t| + |p|;
    FirstByte(n.whole, n.point, n.frac, p + rest);
    BodyTaken(n, p, rest, s, exp, used);
    TextJoined(n, rest);
  }

  /** A contradiction, so that `ReadTo` stays folded. */
  lemma SignedRead(sign: seq<byte>, s: seq<byte>, digits: seq<byte>, exp: int, used: nat, r: seq<byte>, m: int, k: nat)
    requires Signs(sign) && s != [] && s[0] != 0x2B && s[0] != 0x2D && Digits(digits)
    requires r == sign + s && m == Minus(sign, Value(digits)) && k == |sign| + used
    ensures !ReadTo(r, m, exp, k) ==> !Taken(s, digits, exp, used)
  {
    SignedAre(sign, s, digits, exp, used);
  }

  /**
    Every numeral, whatever follows it that does not carry it on, is read as what it says: the
    integer of its digits, with its sign, times the power of ten that its point and its power make.
   */
  lemma NumeralMeans(n: Numeral, rest: seq<byte>, r: seq<byte>, m: int, exp: int)
    requires Valid(n) && Stops(n, rest) && r == Text(n) + rest
    requires m == Minus(n.sign, Magnitude(n)) && exp == PowerOf(n.power) - |n.frac|
    ensures Strtod(r) == Some((Normal(m, exp), |Text(n)|))
  {
    var s, used := Body(n, rest, exp);
    MagnitudeIs(n);
    SignedRead(n.sign, s, n.whole + n.frac, exp, used, r, m, |Text(n)|);
    IsRead(r, m, exp, |Text(n)|);
  }

  lemma MagnitudeIs(n: Numeral)
    requires Valid(n)
    ensures Digits(n.whole + n.frac) && Magnitude(n) == Value(n.whole + n.frac)
  {
  }

  /** Without a digit, in front of the point or behind it, there is no number. */
  lemma NoNumeral(sign: seq<byte>, rest: seq<byte>)
    requires Signs(sign) && (rest == [] || (!Digit(rest[0]) && (sign == [] ==> rest[0] != 0x2B && rest[0] != 0x2D)))
    requires |rest| > 1 && rest[0] == 0x2E ==> !Digit(rest[1])
    ensures Strtod(sign + rest) == None
  {
    var r := sign + rest;
    assert sign == [] ==> r == rest;
    assert sign != [] ==> r[1..] == rest;
    assert Unsign(r) == rest;
    NoDigits(rest);
    if rest != [] {
      assert |rest| > 1 ==> rest[1..][0] == rest[1];
      if rest[0] == 0x2E {
        NoDigits(rest[1..]);
      }
    }
  }

  //
  // Numbers in a text
  //

  /** The bytes of which numerals are made: digits, signs, the point and the marks of a power. */
  predicate NumeralByte(b: byte) { Digit(b) || b in [0x2B, 0x2D, 0x2E, 0x45, 0x65] }

  lemma TextIsNumeralBytes(n: Numeral, b: byte)
    requires Valid(n) && b in Text(n)
    ensures NumeralByte(b)
  {
    if b in PointText(n.point, n.frac) {
      assert b == 0x2E || b in n.frac;
    } else if b in PowerText(n.power) {
      var p := n.power.value;
      assert b == p.mark || b in p.sign || b in p.digits;
    } else {
      assert b in n.sign || b in n.whole;
    }
  }

  lemma {:induction false} RunEndIs(c: seq<byte>, off: nat, k: nat, room: nat)
    requires off <= k <= |c| && k <= off + room
    requires forall i :: off <= i < k ==> NumeralByte(c[i])
    requires k < |c| && k < off + room ==> !NumeralByte(c[k])
    ensures NumberRunEnd(c, off, room) == k
    decreases k - off
  {
    if off < k {
      RunEndIs(c, off + 1, k, room - 1);
    }
  }

  lemma NumberRead(c: seq<byte>, off: nat, k: nat, r: seq<byte>, n: Decimal)
    requires off < k <= |c| && NumberRunEnd(c, off, 63) == k && c[off..k] == r
    ensures Strtod(r) == Some((n, k - off)) ==> JsonTree.NumberAt(c, off) == Some((JsonTree.Number(n), k))
  {
  }

  lemma RunIsText(c: seq<byte>, off: nat, k: nat, r: seq<byte>, n: Decimal)
    requires off < k <= |c| && k - off <= 63 && c[off..k] == r && forall i :: 0 <= i < |r| ==> NumeralByte(r[i])
    requires k - off < 63 && k < |c| ==> !NumeralByte(c[k])
    ensures Strtod(r) == Some((n, |r|)) ==> JsonTree.NumberAt(c, off) == Some((JsonTree.Number(n), k))
  {
    forall i | off <= i < k ensures NumeralByte(c[i]) {
      assert c[i] == r[i - off];
    }
    RunEndIs(c, off, k, 63);
    NumberRead(c, off, k, r, n);
  }

  lemma AloneMeans(n: Numeral, r: seq<byte>, m: int, exp: int)
    requires Valid(n) && r == Text(n)
    requires m == Minus(n.sign, Magnitude(n)) && exp == PowerOf(n.power) - |n.frac|
    ensures Strtod(r) == Some((Normal(m, exp), |r|)) && forall i :: 0 <= i < |r| ==> NumeralByte(r[i])
  {
    forall i | 0 <= i < |r| ensures NumeralByte(r[i]) {
      TextIsNumeralBytes(n, r[i]);
    }
    assert r + [] == r;
    NumeralMeans(n, [], r, m, exp);
  }

  /**
    A numeral that stands in a text and is followed by no byte of which numerals are made is read
    as what it says. One of 63 bytes is read so whatever follows: the parser copies no more.
   */
  lemma NumeralStands(c: seq<byte>, off: nat, k: nat, n: Numeral, r: seq<byte>, m: int, exp: int)
    requires Valid(n) && r == Text(n) && off < k <= |c| && k - off <= 63 && c[off..k] == r
    requires k - off < 63 && k < |c| ==> !NumeralByte(c[k])
    requires m == Minus(n.sign, Magnitude(n)) && exp == PowerOf(n.power) - |n.frac|
    ensures JsonTree.NumberAt(c, off) == Some((JsonTree.Number(Normal(m, exp)), k))
  {
    AloneMeans(n, r, m, exp);
    RunIsText(c, off, k, r, Normal(m, exp));
  }

  //
  // The form of a printed number
  //

  lemma {:induction false} NatTextForm(n: nat)
    ensures n >= 10 ==> |NatText(n)| >= 2
    ensures n > 0 ==> NatText(n)[0] != 0x30
  {
    if n >= 10 {
      NatTextForm(n / 10);
      assert NatText(n)[0] == NatText(n / 10)[0];
    }
  }

  /** A power of ten is printed with its sign and two digits, or as many more as it has. */
  lemma ExponentForm(e: int)
    ensures var t := ExponentText(e);
            && |t| >= 4 && t[0] == 0x65 && t[1] == (if e < 0 then 0x2D else 0x2B)
            && (|t| > 4 ==> t[2] != 0x30) && forall i :: 2 <= i < |t| ==> Digit(t[i])
  {
    NatTextForm(Abs(e));
    var t, d := ExponentText(e), ExponentDigits(e);
    assert forall i :: 2 <= i < |t| ==> t[i] == d[i - 2];
  }

  /** The digits printed of a number end in no zero. */
  lemma {:induction false} SignificantEnds(m: nat, exp: int)
    ensures m > 0 ==> Significant(m, exp).mant % 10 != 0
    decreases m
  {
    if m > 0 && m % 10 == 0 {
      SignificantEnds(m / 10, exp + 1);
    }
  }

  /** A power is printed exactly where the first digit stands five places or more behind the point, or sixteen before it. */
  lemma GeneralForm(digits: seq<byte>, exp: int)
    requires digits != [] && Digits(digits)
    ensures 0x65 in GeneralText(digits, exp) <==> exp + |digits| - 1 < -4 || exp + |digits| - 1 >= 15
  {
    var t, lead := GeneralText(digits, exp), exp + |digits| - 1;
    if lead < -4 || lead >= 15 {
      assert 0x65 in ExponentText(lead);
    } else {
      forall b | b in t ensures b != 0x65 {
        assert b == 0x2E || b == 0x30 || b in digits;
      }
    }
  }
}
