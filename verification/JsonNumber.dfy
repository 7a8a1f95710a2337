/**
  JSON numbers as exact decimals: what `strtod` reads, what `print_number` writes, and that reading
  a written number gives it back. A number of at most fifteen significant digits is taken for its
  decimal, since the nearest double determines it; the rounding of longer ones is not modelled.
 */
module JsonNumber {
  import opened Base
  import opened JsonText

  /** `mant * 10^exp`. */
  datatype Decimal = Decimal(mant: int, exp: int)

  const MINUS: byte := 0x2D
  const PLUS: byte := 0x2B
  const POINT: byte := 0x2E
  const LOWER_E: byte := 0x65
  const UPPER_E: byte := 0x45
  const ZERO: byte := 0x30
  const NUMBER_RUN_MAX: nat := 63
  const NUMBER_BUFFER: nat := 26

  /** The digits that any double keeps, and the decimal exponents below and above which it keeps fewer. */
  const DBL_DIG: nat := 15
  const EXP_MIN: int := -307
  const EXP_MAX: int := 307

  predicate IsDigit(b: byte) { 0x30 <= b <= 0x39 }

  /** Bytes that `parse_number` copies: digits, signs, exponent marks and the point. */
  predicate IsNumberByte(b: byte) {
    IsDigit(b) || b == PLUS || b == MINUS || b == LOWER_E || b == UPPER_E || b == POINT
  }

  /** End of the run of number bytes from `i`, at most `room` bytes on. */
  function NumberRunEnd(c: seq<byte>, i: nat, room: nat): (k: nat)
    requires i <= |c|
    ensures i <= k <= |c| && k <= i + room
    decreases |c| - i
  {
    if room > 0 && i < |c| && IsNumberByte(c[i]) then NumberRunEnd(c, i + 1, room - 1) else i
  }

  predicate AllDigits(s: seq<byte>) {
    forall i :: 0 <= i < |s| ==> IsDigit(s[i])
  }

  function DigitsValue(s: seq<byte>): (v: nat)
    requires AllDigits(s)
  {
    if s == [] then 0
    else
      var last := s[|s| - 1];
      assert IsDigit(last);
      DigitsValue(s[..|s| - 1]) * 10 + (last - 0x30)
  }

  function Pow10(k: nat): (p: nat)
    ensures p > 0
  {
    if k == 0 then 1 else 10 * Pow10(k - 1)
  }

  predicate IsNormal(n: Decimal) { n.exp <= 0 && (n.exp < 0 ==> n.mant % 10 != 0) }

  /** The normal form of a decimal: no zero behind the point, no positive exponent. */
  function Normal(mant: int, exp: int): (n: Decimal)
    ensures IsNormal(n)
    decreases if exp < 0 then -exp else exp
  {
    if exp > 0 then Normal(mant * 10, exp - 1)
    else if exp < 0 && mant % 10 == 0 then Normal(mant / 10, exp + 1)
    else Decimal(mant, exp)
  }

  /** The digits at the front of a text. */
  function Leading(r: seq<byte>): (d: seq<byte>)
    ensures |d| <= |r| && AllDigits(d)
  {
    if r == [] || !IsDigit(r[0]) then []
    else
      var rest := Leading(r[1..]);
      assert forall j :: 1 <= j <= |rest| ==> ([r[0]] + rest)[j] == rest[j - 1];
      [r[0]] + rest
  }

  /** The text behind the digits at its front. */
  function PastDigits(r: seq<byte>): (t: seq<byte>)
    ensures |Leading(r)| + |t| == |r|
  {
    if r == [] || !IsDigit(r[0]) then r else PastDigits(r[1..])
  }

  predicate StartsWith(r: seq<byte>, b: byte) { r != [] && r[0] == b }

  /** The digits before the point, those behind it, and the rest of the text. */
  function Mantissa(s: seq<byte>): (v: (seq<byte>, seq<byte>, seq<byte>))
    ensures AllDigits(v.0) && AllDigits(v.1) && |v.0| + |v.1| + |v.2| <= |s|
  {
    var t := PastDigits(s);
    if StartsWith(t, POINT) then (Leading(s), Leading(t[1..]), PastDigits(t[1..])) else (Leading(s), [], t)
  }

  /** An unsigned number: its digits, the power of ten of the last one, and its length. */
  function Unsigned(s: seq<byte>): (v: Option<(seq<byte>, int, nat)>)
    ensures v.Some? ==> AllDigits(v.value.0) && 0 < v.value.2 <= |s|
  {
    var m := Mantissa(s);
    if m.0 + m.1 == [] then None
    else
      var x := Exponent(m.2);
      Some((m.0 + m.1, x.0 - |m.1|, |s| - |m.2| + x.1))
  }

  /** `digits * 10^exp`. */
  function ToDecimal(negative: bool, digits: seq<byte>, exp: int): (n: Decimal)
    requires AllDigits(digits)
  {
    Normal(Signed(negative, DigitsValue(digits)), exp)
  }

  /** The text without its sign. */
  function Unsign(r: seq<byte>): (s: seq<byte>)
    ensures |s| <= |r|
  {
    if StartsWith(r, MINUS) || StartsWith(r, PLUS) then r[1..] else r
  }

  /** `strtod` on a run of number bytes: the decimal it spells and how many bytes it takes. */
  function Strtod(r: seq<byte>): (v: Option<(Decimal, nat)>)
    ensures v.Some? ==> 0 < v.value.1 <= |r|
  {
    var v := Unsigned(Unsign(r));
    if v.None? then None
    else Some((ToDecimal(StartsWith(r, MINUS), v.value.0, v.value.1), |r| - |Unsign(r)| + v.value.2))
  }

  /** The optional exponent part at the front; it counts only when it has a digit. */
  function Exponent(u: seq<byte>): (x: (int, nat))
    ensures x.1 <= |u|
  {
    if !StartsWith(u, LOWER_E) && !StartsWith(u, UPPER_E) then (0, 0)
    else
      var negative := StartsWith(u[1..], MINUS);
      var w := if negative || StartsWith(u[1..], PLUS) then u[2..] else u[1..];
      var d := Leading(w);
      if d == [] then (0, 0) else (Signed(negative, DigitsValue(d)), |u| - |w| + |d|)
  }

  lemma StrtodIsNormal(r: seq<byte>)
    ensures Strtod(r).Some? ==> IsNormal(Strtod(r).value.0)
  {
  }

  //
  // The text of a number
  //

  function NatText(n: nat): (t: seq<byte>)
    ensures t != [] && AllDigits(t)
  {
    if n < 10 then [ZERO + n] else NatText(n / 10) + [ZERO + n % 10]
  }

  function Sign(negative: bool): (t: seq<byte>) { if negative then [MINUS] else [] }

  /** `%d`. */
  function IntText(n: int): (t: seq<byte>) { Sign(n < 0) + NatText(Abs(n)) }

  function Signed(negative: bool, size: nat): (m: int) {
    var m: int := size;
    if negative then -m else m
  }

  function Abs(n: int): (m: nat) { if n < 0 then -n else n }

  /** A number without the zeros at its end. */
  function Significant(m: nat, exp: int): (n: Decimal)
    ensures n.mant >= 0
  {
    if m > 0 && m % 10 == 0 then Significant(m / 10, exp + 1) else Decimal(m, exp)
  }

  function Zeros(k: nat): (t: seq<byte>)
    ensures |t| == k && AllDigits(t)
  {
    seq(k, _ => ZERO)
  }

  function Fraction(digits: seq<byte>): (t: seq<byte>) { if digits == [] then [] else [POINT] + digits }

  /** At least two digits. */
  function ExponentDigits(e: int): (t: seq<byte>)
    ensures t != [] && AllDigits(t)
  {
    if Abs(e) < 10 then [ZERO] + NatText(Abs(e)) else NatText(Abs(e))
  }

  function ExponentText(e: int): (t: seq<byte>) {
    [LOWER_E, if e < 0 then MINUS else PLUS] + ExponentDigits(e)
  }

  /** `%1.15g` of `digits * 10^exp`, where there are at most fifteen digits. */
  function GeneralText(digits: seq<byte>, exp: int): (t: seq<byte>)
    requires digits != []
  {
    var lead := exp + |digits| - 1;
    if lead < -4 || lead >= DBL_DIG then digits[..1] + Fraction(digits[1..]) + ExponentText(lead)
    else if exp >= 0 then digits + Zeros(exp)
    else if lead >= 0 then digits[..lead + 1] + Fraction(digits[lead + 1..])
    else [ZERO] + Fraction(Zeros(-lead - 1) + digits)
  }

  function Quotient(a: nat, p: nat): (q: nat)
    requires p > 0
  {
    a / p
  }

  /** The number without what stands behind its point. */
  function Truncated(n: Decimal): (i: int)
    requires n.exp <= 0
  {
    Signed(n.mant < 0, Quotient(Abs(n.mant), Pow10(-n.exp)))
  }

  /** `valueint`: the number cut to an integer, and to the range of an `int`. */
  function ValueInt(n: Decimal): (i: int)
    requires n.exp <= 0
    ensures INT32_MIN <= i <= INT32_MAX
  {
    if Truncated(n) > INT32_MAX then INT32_MAX
    else if Truncated(n) < INT32_MIN then INT32_MIN
    else Truncated(n)
  }

  predicate IsInt32(n: Decimal) { n.exp == 0 && INT32_MIN <= n.mant <= INT32_MAX }

  /** The numbers that equal their `valueint` are those that an `int` holds. */
  lemma Int32Iff(n: Decimal)
    requires IsNormal(n)
    ensures IsInt32(n) <==> n == Decimal(ValueInt(n), 0)
  {
  }

  lemma DivAtLeast(a: nat, p: nat, m: nat)
    requires p > 0
    ensures Quotient(a, p) >= m <==> a >= m * p
  {
    assert a == p * (a / p) + a % p;
    if a / p >= m {
      assert p * (a / p) >= p * m;
    } else {
      assert p * (a / p) <= p * (m - 1);
    }
  }

  /** `parse_number` compares the number with the ends of the range before it cuts it. */
  method ToValueInt(n: Decimal) returns (i: int)
    requires n.exp <= 0
    ensures i == ValueInt(n)
  {
    var p := Pow10(-n.exp);
    DivAtLeast(Abs(n.mant), p, INT32_MAX);
    DivAtLeast(Abs(n.mant), p, -INT32_MIN);
    if n.mant >= INT32_MAX * p {
      return INT32_MAX;
    }
    if n.mant <= INT32_MIN * p {
      return INT32_MIN;
    }
    i := Signed(n.mant < 0, Quotient(Abs(n.mant), p));
  }

  /** The text that `print_number` writes. */
  function NumberText(n: Decimal): (t: seq<byte>) {
    if IsInt32(n) then IntText(n.mant)
    else
      var s := Significant(Abs(n.mant), n.exp);
      Sign(n.mant < 0) + GeneralText(NatText(s.mant), s.exp)
  }

  /** At most fifteen significant digits, within the range in which a double determines them. */
  predicate IsShort(n: Decimal) {
    var s := Significant(Abs(n.mant), n.exp);
    s.mant < Pow10(DBL_DIG) && EXP_MIN <= s.exp + |NatText(s.mant)| - 1 <= EXP_MAX
  }

  /** A number that is printed as modelled: an `int`, or a short one. */
  predicate Recoverable(n: Decimal) { IsNormal(n) && (IsInt32(n) || IsShort(n)) }

  //
  // Digits and decimals
  //

  lemma {:induction false} DigitsValueOfNatText(n: nat)
    ensures DigitsValue(NatText(n)) == n
  {
    if n >= 10 {
      DigitsValueOfNatText(n / 10);
      var t := NatText(n);
      assert t[..|t| - 1] == NatText(n / 10);
    }
  }

  lemma {:induction false} NatTextLength(n: nat, k: nat)
    requires n < Pow10(k) && k >= 1
    ensures |NatText(n)| <= k
    decreases k
  {
    if n >= 10 {
      assert Pow10(k) == 10 * Pow10(k - 1);
      NatTextLength(n / 10, k - 1);
    }
  }

  lemma TenTimes(m: int, k: nat)
    ensures (m * 10) * Pow10(k) == m * Pow10(k + 1) == 10 * (m * Pow10(k))
  {
  }

  /** The normal form keeps the value. */
  lemma {:induction false} NormalKeepsValue(mant: int, exp: int)
    ensures var n := Normal(mant, exp);
            if exp >= 0 then n.exp == 0 && n.mant == mant * Pow10(exp)
            else exp <= n.exp && mant == n.mant * Pow10(n.exp - exp)
    decreases if exp < 0 then -exp else exp
  {
    if exp > 0 {
      NormalKeepsValue(mant * 10, exp - 1);
      TenTimes(mant, exp - 1);
    } else if exp < 0 && mant % 10 == 0 {
      NormalKeepsValue(mant / 10, exp + 1);
      var n := Normal(mant, exp);
      TenTimes(n.mant, n.exp - exp - 1);
    }
  }

  lemma NormalTen(m: int, exp: int)
    ensures Normal(m * 10, exp) == Normal(m, exp + 1)
  {
    assert m * 10 % 10 == 0 && m * 10 / 10 == m;
  }

  /** Decimals of the same value have the same normal form. */
  lemma {:induction false} NormalShift(m: int, exp: int, k: nat)
    ensures Normal(m * Pow10(k), exp - k) == Normal(m, exp)
  {
    if k > 0 {
      TenTimes(m, k - 1);
      NormalTen(m * Pow10(k - 1), exp - k);
      NormalShift(m, exp, k - 1);
    }
  }

  /** The significant digits are those of the same number. */
  lemma {:induction false} SignificantIsSame(negative: bool, m: nat, exp: int)
    ensures var s := Significant(m, exp);
            Normal(Signed(negative, s.mant), s.exp) == Normal(Signed(negative, m), exp)
  {
    if m > 0 && m % 10 == 0 {
      SignificantIsSame(negative, m / 10, exp + 1);
      NormalTen(Signed(negative, m / 10), exp);
    }
  }

  lemma {:induction false} ZerosBehind(d: seq<byte>, k: nat)
    requires AllDigits(d)
    ensures AllDigits(d + Zeros(k)) && DigitsValue(d + Zeros(k)) == DigitsValue(d) * Pow10(k)
  {
    if k == 0 {
      assert d + Zeros(0) == d;
    } else {
      ZerosBehind(d, k - 1);
      var t := d + Zeros(k);
      assert t[..|t| - 1] == d + Zeros(k - 1);
      TenTimes(DigitsValue(d), k - 1);
    }
  }

  lemma {:induction false} ZerosBefore(k: nat, d: seq<byte>)
    requires AllDigits(d)
    ensures AllDigits(Zeros(k) + d) && DigitsValue(Zeros(k) + d) == DigitsValue(d)
  {
    var t := Zeros(k) + d;
    if d != [] {
      ZerosBefore(k, d[..|d| - 1]);
      assert t[..|t| - 1] == Zeros(k) + d[..|d| - 1];
    } else if k > 0 {
      ZerosBefore(k - 1, d);
      assert t[..|t| - 1] == Zeros(k - 1) + d;
    }
  }

  //
  // Reading a number back
  //

  lemma {:induction false} LeadingIs(d: seq<byte>, tail: seq<byte>)
    requires AllDigits(d) && (tail == [] || !IsDigit(tail[0]))
    ensures Leading(d + tail) == d && PastDigits(d + tail) == tail
  {
    if d == [] {
      assert d + tail == tail;
    } else {
      assert (d + tail)[1..] == d[1..] + tail;
      LeadingIs(d[1..], tail);
    }
  }

  function ExponentPart(e: Option<int>): (t: seq<byte>)
    ensures t == [] || t[0] == LOWER_E
  {
    if e.Some? then ExponentText(e.value) else []
  }

  function ExponentOf(e: Option<int>): (x: int) { if e.Some? then e.value else 0 }

  lemma ExponentDigitsValue(e: int)
    ensures DigitsValue(ExponentDigits(e)) == Abs(e)
  {
    DigitsValueOfNatText(Abs(e));
    if Abs(e) < 10 {
      assert [ZERO] == Zeros(1);
      ZerosBefore(1, NatText(Abs(e)));
    }
  }

  lemma ExponentBack(e: Option<int>)
    ensures Exponent(ExponentPart(e)) == (ExponentOf(e), |ExponentPart(e)|)
  {
    if e.Some? {
      var u, d := ExponentPart(e), ExponentDigits(e.value);
      assert u[2..] == d == d + [];
      assert u[1..][0] == u[1];
      LeadingIs(d, []);
      ExponentDigitsValue(e.value);
    }
  }

  /** Sign, digits, point and digits, and an exponent unless it is None. */
  function Spelled(negative: bool, a: seq<byte>, f: seq<byte>, e: Option<int>): (t: seq<byte>) {
    Sign(negative) + a + Fraction(f) + ExponentPart(e)
  }

  lemma Behind<T>(x: T, a: seq<T>)
    ensures ([x] + a)[1..] == a
  {
  }

  lemma FractionIs(f: seq<byte>, u: seq<byte>)
    requires AllDigits(f) && (u == [] || !IsDigit(u[0])) && !StartsWith(u, POINT)
    ensures var t := Fraction(f) + u;
            && (t == [] || !IsDigit(t[0]))
            && (StartsWith(t, POINT) <==> f != [])
            && (f == [] ==> t == u)
            && (f != [] ==> Leading(t[1..]) == f && PastDigits(t[1..]) == u)
  {
    if f == [] {
      assert Fraction(f) + u == u;
    } else {
      assert Fraction(f) + u == [POINT] + (f + u);
      Behind(POINT, f + u);
      LeadingIs(f, u);
    }
  }

  lemma SignIs(negative: bool, s: seq<byte>)
    requires s != [] && IsDigit(s[0])
    ensures var r := Sign(negative) + s;
            negative == StartsWith(r, MINUS) && s == Unsign(r)
  {
    Behind(MINUS, s);
    assert [] + s == s;
  }

  /** The whole text is an unsigned number of these digits. Kept folded; `Unfold(1)` opens it. */
  ghost predicate Splits(s: seq<byte>, digits: seq<byte>, exp: int) {
    forall k: nat {:trigger Unfold(k)} :: Unfold(k) && k == 1 ==> Unsigned(s) == Some((digits, exp, |s|))
  }

  lemma MantissaIs(a: seq<byte>, f: seq<byte>, u: seq<byte>)
    requires AllDigits(a) && AllDigits(f)
    requires (u == [] || !IsDigit(u[0])) && !StartsWith(u, POINT)
    ensures Mantissa(a + (Fraction(f) + u)) == (a, f, u)
  {
    var t := Fraction(f) + u;
    FractionIs(f, u);
    LeadingIs(a, t);
  }

  lemma UnsignedIs(a: seq<byte>, f: seq<byte>, u: seq<byte>, x: int)
    requires a != [] && AllDigits(a) && AllDigits(f)
    requires (u == [] || !IsDigit(u[0])) && !StartsWith(u, POINT) && Exponent(u) == (x, |u|)
    ensures Splits(a + (Fraction(f) + u), a + f, x - |f|)
  {
    MantissaIs(a, f, u);
    UnsignedOf(a + (Fraction(f) + u), a, f, u, x);
  }

  lemma UnsignedOf(s: seq<byte>, a: seq<byte>, f: seq<byte>, u: seq<byte>, x: int)
    requires a != [] && Mantissa(s) == (a, f, u) && Exponent(u) == (x, |u|)
    ensures Unsigned(s) == Some((a + f, x - |f|, |s|))
  {
  }

  lemma Assoc4(a: seq<byte>, b: seq<byte>, c: seq<byte>, d: seq<byte>)
    ensures a + b + c + d == a + (b + (c + d))
  {
  }

  /** `n` is `digits * 10^exp` in normal form. Kept folded; `Unfold(0)` opens it. */
  ghost predicate Denotes(negative: bool, digits: seq<byte>, exp: int, n: Decimal) {
    forall k: nat {:trigger Unfold(k)} :: Unfold(k) && k == 0 ==> AllDigits(digits) && ToDecimal(negative, digits, exp) == n
  }

  /** `strtod` reads the whole text, as `n`. Kept folded; `Unfold(2)` opens it. */
  ghost predicate ReadsAs(r: seq<byte>, n: Decimal) {
    forall k: nat {:trigger Unfold(k)} :: Unfold(k) && k == 2 ==> Strtod(r) == Some((n, |r|))
  }

  lemma StrtodIs(negative: bool, s: seq<byte>, digits: seq<byte>, exp: int, n: Decimal)
    requires s != [] && IsDigit(s[0]) && Splits(s, digits, exp) && Denotes(negative, digits, exp, n)
    ensures ReadsAs(Sign(negative) + s, n)
  {
    SignIs(negative, s);
    assert Unfold(0) && Unfold(1);
  }

  lemma StrtodOfParts(negative: bool, a: seq<byte>, f: seq<byte>, u: seq<byte>, x: int, n: Decimal)
    requires a != [] && AllDigits(a) && AllDigits(f)
    requires (u == [] || !IsDigit(u[0])) && !StartsWith(u, POINT) && Exponent(u) == (x, |u|)
    requires Denotes(negative, a + f, x - |f|, n)
    ensures ReadsAs(Sign(negative) + (a + (Fraction(f) + u)), n)
  {
    var s := a + (Fraction(f) + u);
    UnsignedIs(a, f, u, x);
    assert s[0] == a[0];
    StrtodIs(negative, s, a + f, x - |f|, n);
  }

  lemma StrtodOfSpelled(negative: bool, a: seq<byte>, f: seq<byte>, e: Option<int>, n: Decimal)
    requires a != [] && AllDigits(a) && AllDigits(f)
    requires Denotes(negative, a + f, ExponentOf(e) - |f|, n)
    ensures ReadsAs(Spelled(negative, a, f, e), n)
  {
    ExponentBack(e);
    Assoc4(Sign(negative), a, Fraction(f), ExponentPart(e));
    StrtodOfParts(negative, a, f, ExponentPart(e), ExponentOf(e), n);
  }

  /** Zeros behind the digits and a smaller power of ten: the same decimal. */
  lemma ZerosBehindSame(negative: bool, d: seq<byte>, k: nat, n: Decimal)
    requires Denotes(negative, d, k, n)
    ensures Denotes(negative, d + Zeros(k), 0, n)
  {
    assert Unfold(0);
    ZerosBehind(d, k);
    SignedTimes(negative, DigitsValue(d), Pow10(k));
    NormalShift(Signed(negative, DigitsValue(d)), k, k);
  }

  lemma SignedTimes(negative: bool, a: nat, b: nat)
    ensures Signed(negative, a) * b == Signed(negative, a * b)
  {
  }

  lemma ZerosBeforeSame(negative: bool, k: nat, d: seq<byte>, exp: int, n: Decimal)
    requires Denotes(negative, d, exp, n)
    ensures Denotes(negative, Zeros(k) + d, exp, n)
  {
    assert Unfold(0);
    ZerosBefore(k, d);
  }

  lemma Assoc3(a: seq<byte>, b: seq<byte>, c: seq<byte>)
    ensures a + b + c == a + (b + c)
  {
  }

  lemma WholeBack(negative: bool, d: seq<byte>, exp: nat, n: Decimal)
    requires d != [] && AllDigits(d) && Denotes(negative, d, exp, n)
    ensures var r := Sign(negative) + (d + Zeros(exp));
            ReadsAs(r, n)
  {
    var a := d + Zeros(exp);
    ZerosBehindSame(negative, d, exp, n);
    assert a + [] == a;
    StrtodOfSpelled(negative, a, [], None, n);
    assert Spelled(negative, a, [], None) == Sign(negative) + a;
  }

  /** Digits on both sides of the point, and perhaps an exponent. */
  lemma PointBack(negative: bool, a: seq<byte>, f: seq<byte>, e: Option<int>, n: Decimal)
    requires a != [] && AllDigits(a) && AllDigits(f)
    requires Denotes(negative, a + f, ExponentOf(e) - |f|, n)
    ensures var r := Sign(negative) + (a + Fraction(f) + ExponentPart(e));
            ReadsAs(r, n)
  {
    StrtodOfSpelled(negative, a, f, e, n);
    Assoc4(Sign(negative), a, Fraction(f), ExponentPart(e));
    Assoc3(a, Fraction(f), ExponentPart(e));
  }

  lemma SmallBack(negative: bool, d: seq<byte>, k: nat, n: Decimal)
    requires d != [] && AllDigits(d) && Denotes(negative, d, -(k + |d|), n)
    ensures var r := Sign(negative) + ([ZERO] + Fraction(Zeros(k) + d));
            ReadsAs(r, n)
  {
    assert [ZERO] + (Zeros(k) + d) == Zeros(k + 1) + d;
    ZerosBeforeSame(negative, k + 1, d, -(k + |d|), n);
    PointBack(negative, [ZERO], Zeros(k) + d, None, n);
    Unextended([ZERO] + Fraction(Zeros(k) + d));
  }

  lemma Unextended(a: seq<byte>)
    ensures a + ExponentPart(None) == a
  {
  }

  lemma GeneralWithExponent(negative: bool, d: seq<byte>, exp: int, n: Decimal)
    requires d != [] && AllDigits(d) && Denotes(negative, d, exp, n)
    requires exp + |d| - 1 < -4 || exp + |d| - 1 >= DBL_DIG
    ensures ReadsAs(Sign(negative) + GeneralText(d, exp), n)
  {
    assert d[..1] + d[1..] == d;
    PointBack(negative, d[..1], d[1..], Some(exp + |d| - 1), n);
  }

  lemma GeneralWithPoint(negative: bool, d: seq<byte>, exp: int, n: Decimal)
    requires d != [] && AllDigits(d) && Denotes(negative, d, exp, n)
    requires exp < 0 <= exp + |d| - 1 < DBL_DIG
    ensures ReadsAs(Sign(negative) + GeneralText(d, exp), n)
  {
    var a, f := d[..exp + |d|], d[exp + |d|..];
    assert a + f == d;
    PointBack(negative, a, f, None, n);
    Unextended(a + Fraction(f));
  }

  /** `strtod` reads what `%1.15g` writes. */
  lemma GeneralBack(negative: bool, d: seq<byte>, exp: int, n: Decimal)
    requires d != [] && AllDigits(d) && Denotes(negative, d, exp, n)
    ensures ReadsAs(Sign(negative) + GeneralText(d, exp), n)
  {
    var lead := exp + |d| - 1;
    if lead < -4 || lead >= DBL_DIG {
      GeneralWithExponent(negative, d, exp, n);
    } else if exp >= 0 {
      WholeBack(negative, d, exp, n);
    } else if lead >= 0 {
      GeneralWithPoint(negative, d, exp, n);
    } else {
      SmallBack(negative, d, -lead - 1, n);
    }
  }

  lemma IntDenotes(m: int)
    ensures Denotes(m < 0, NatText(Abs(m)), 0, Decimal(m, 0))
  {
    DigitsValueOfNatText(Abs(m));
  }

  lemma SignificantDenotes(n: Decimal)
    requires IsNormal(n)
    ensures var s := Significant(Abs(n.mant), n.exp);
            Denotes(n.mant < 0, NatText(s.mant), s.exp, n)
  {
    var s := Significant(Abs(n.mant), n.exp);
    DigitsValueOfNatText(s.mant);
    SignificantIsSame(n.mant < 0, Abs(n.mant), n.exp);
    assert Signed(n.mant < 0, Abs(n.mant)) == n.mant;
  }

  /** What `print_number` writes for a recoverable number, `strtod` reads as that number. */
  lemma NumberBack(n: Decimal)
    requires Recoverable(n)
    ensures ReadsAs(NumberText(n), n)
  {
    if IsInt32(n) {
      IntDenotes(n.mant);
      WholeBack(n.mant < 0, NatText(Abs(n.mant)), 0, n);
      assert NatText(Abs(n.mant)) + Zeros(0) == NatText(Abs(n.mant));
    } else {
      var s := Significant(Abs(n.mant), n.exp);
      SignificantDenotes(n);
      GeneralBack(n.mant < 0, NatText(s.mant), s.exp, n);
    }
  }

  lemma NatTextIs(n: nat)
    requires n < 1000
    ensures |NatText(n)| <= 3
  {
    assert Pow10(3) == 1000;
    NatTextLength(n, 3);
  }

  /** The text fits the buffer of `print_number`. */
  lemma NumberTextLength(n: Decimal)
    requires Recoverable(n)
    ensures 0 < |NumberText(n)| < NUMBER_BUFFER
  {
    if IsInt32(n) {
      assert Pow10(2) == 100 && Pow10(4) == 10000;
      assert Pow10(6) == 1000000 && Pow10(8) == 100000000;
      assert Pow10(10) == 10000000000;
      NatTextLength(Abs(n.mant), 10);
    } else {
      var s := Significant(Abs(n.mant), n.exp);
      NatTextLength(s.mant, DBL_DIG);
      NatTextIs(Abs(s.exp + |NatText(s.mant)| - 1));
    }
  }

  lemma DigitsAreNumberBytes(d: seq<byte>)
    requires AllDigits(d)
    ensures OnlyNumberBytes(d)
  {
  }

  lemma OnlyNumberBytesConcat(a: seq<byte>, b: seq<byte>)
    requires OnlyNumberBytes(a) && OnlyNumberBytes(b)
    ensures OnlyNumberBytes(a + b)
  {
  }

  lemma GeneralTextBytes(d: seq<byte>, exp: int)
    requires d != [] && AllDigits(d)
    ensures OnlyNumberBytes(GeneralText(d, exp)) && IsDigit(GeneralText(d, exp)[0])
  {
    DigitsAreNumberBytes(ExponentDigits(exp + |d| - 1));
  }

  /** The text starts with a digit or a minus, and every byte of it is one that `parse_number` copies. */
  lemma NumberTextBytes(n: Decimal)
    ensures var t := NumberText(n);
            t != [] && (IsDigit(t[0]) || t[0] == MINUS) && OnlyNumberBytes(t)
  {
    if IsInt32(n) {
      DigitsAreNumberBytes(NatText(Abs(n.mant)));
      OnlyNumberBytesConcat(Sign(n.mant < 0), NatText(Abs(n.mant)));
    } else {
      var s := Significant(Abs(n.mant), n.exp);
      GeneralTextBytes(NatText(s.mant), s.exp);
      OnlyNumberBytesConcat(Sign(n.mant < 0), GeneralText(NatText(s.mant), s.exp));
    }
  }

  predicate OnlyNumberBytes(t: seq<byte>) {
    forall i :: 0 <= i < |t| ==> IsNumberByte(t[i])
  }
}
