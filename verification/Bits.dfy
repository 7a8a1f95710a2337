/** The C bit operators on unsigned numbers, and what the masks of the program do with them. */
module Bits {
  function Pow2(k: nat): (r: nat)
    ensures r > 0
  {
    if k == 0 then 1 else 2 * Pow2(k - 1)
  }

  /** The operator `&`, bit by bit. */
  function And(a: nat, b: nat): (r: nat) {
    if a == 0 || b == 0 then 0
    else 2 * And(a / 2, b / 2) + (if a % 2 == 1 && b % 2 == 1 then 1 else 0)
  }

  /** The operator `|`, bit by bit. */
  function Or(a: nat, b: nat): (r: nat) {
    if a == 0 then b
    else if b == 0 then a
    else 2 * Or(a / 2, b / 2) + (if a % 2 == 1 || b % 2 == 1 then 1 else 0)
  }

  /** The operator `>>`. */
  function ShiftRight(a: nat, k: nat): (r: nat) { if k == 0 then a else ShiftRight(a / 2, k - 1) }

  /** The operator `<<`, in a type wide enough. */
  function ShiftLeft(a: nat, k: nat): (r: nat) { if k == 0 then a else 2 * ShiftLeft(a, k - 1) }

  //
  // One bit at a time
  //

  lemma AndStep(a: nat, m: nat)
    ensures And(a, 2 * m) == 2 * And(a / 2, m)
    ensures And(a, 2 * m + 1) == 2 * And(a / 2, m) + a % 2
  {
    assert 2 * m / 2 == m && (2 * m + 1) / 2 == m && 2 * m % 2 == 0;
  }

  lemma OrStep(a: nat, m: nat)
    ensures Or(a, 2 * m) == 2 * Or(a / 2, m) + a % 2
  {
    assert 2 * m / 2 == m && 2 * m % 2 == 0;
  }

  lemma {:induction false} PowGrows(k: nat, n: nat)
    requires k <= n
    ensures Pow2(k) <= Pow2(n)
    decreases n
  {
    if k < n {
      PowGrows(k, n - 1);
    }
  }

  //
  // Masks
  //

  /** The `k` low bits of a number. */
  function Low(a: nat, k: nat): (r: nat) { if k == 0 then 0 else 2 * Low(a / 2, k - 1) + a % 2 }

  lemma {:induction false} LowMask(a: nat, k: nat)
    ensures And(a, Pow2(k) - 1) == Low(a, k)
  {
    if k > 0 {
      LowMask(a / 2, k - 1);
      AndStep(a, Pow2(k - 1) - 1);
    }
  }

  /** The low bits are the remainder by a power of two. */
  lemma {:induction false} LowIsRemainder(a: nat, k: nat)
    ensures Low(a, k) == a % Pow2(k)
  {
    if k > 0 {
      LowIsRemainder(a / 2, k - 1);
      HalfRemainder(a, Pow2(k - 1));
    }
  }

  lemma HalfRemainder(a: nat, p: nat)
    requires p > 0
    ensures 2 * (a / 2 % p) + a % 2 == a % (2 * p)
  {
    var q, r := a / 2 / p, a / 2 % p;
    assert a / 2 == q * p + r;
    assert a == q * (2 * p) + (2 * r + a % 2);
    RemainderIs(a, 2 * p, q, 2 * r + a % 2);
  }

  lemma MultipleGrows(k: int, d: nat)
    ensures k >= 1 ==> k * d >= d
    ensures k <= -1 ==> k * d + d <= 0
  {
    if k >= 1 {
      assert (k - 1) * d >= 0;
    } else if k <= -1 {
      assert (-k - 1) * d >= 0;
    }
  }

  /** Quotient and remainder are what they are multiplied out. */
  lemma RemainderIs(a: nat, d: nat, q: nat, r: nat)
    requires d > 0 && r < d && a == q * d + r
    ensures a / d == q && a % d == r
  {
    var x := a / d;
    assert a == x * d + a % d;
    MultipleGrows(q - x, d);
    assert (q - x) * d == q * d - x * d;
  }

  /** A number is its high part and its low part. */
  lemma {:induction false} HighAndLow(a: nat, k: nat)
    ensures a == ShiftLeft(ShiftRight(a, k), k) + Low(a, k) && Low(a, k) < Pow2(k)
  {
    if k > 0 {
      HighAndLow(a / 2, k - 1);
    }
  }

  /** Disjoint bits: `|` adds. */
  lemma {:induction false} OrAdds(a: nat, b: nat, k: nat)
    requires b < Pow2(k)
    ensures Or(ShiftLeft(a, k), b) == ShiftLeft(a, k) + b
  {
    if k > 0 {
      OrAdds(a, b / 2, k - 1);
      var high := ShiftLeft(a, k - 1);
      assert 2 * high / 2 == high;
    }
  }

  lemma AndOfDouble(x: nat, bit: nat, m: nat)
    requires bit <= 1
    ensures And(2 * x + bit, 2 * m + 1) == 2 * And(x, m) + bit
    ensures And(2 * x + bit, 2 * m) == 2 * And(x, m)
  {
    assert (2 * x + bit) / 2 == x && (2 * x + bit) % 2 == bit;
    AndStep(2 * x + bit, m);
  }

  /** One bit of `(a | o) & m`: the mask has it, or clears it. */
  lemma KeepBit(a: nat, o: nat, m: nat)
    ensures And(Or(a, 2 * o), 2 * m + 1) == 2 * And(Or(a / 2, o), m) + a % 2
    ensures And(Or(a, 2 * o), 2 * m) == 2 * And(Or(a / 2, o), m)
  {
    OrStep(a, o);
    var x, bit := Or(a / 2, o), a % 2;
    var y := Or(a, 2 * o);
    assert y == 2 * x + bit;
    AndOfDouble(x, bit, m);
  }

  lemma TopBit(a: nat)
    ensures And(Or(a, 1), 1) == 1
  {
  }

  /** `(a | 0x80) & 0xBF`: six low bits under the mark of a continuation byte. */
  lemma ContinuationBits(a: nat)
    ensures And(Or(a, 0x80), 0xBF) == 0x80 + Low(a, 6)
  {
    var b := a / 2;
    var c := b / 2;
    var d := c / 2;
    var e := d / 2;
    var f := e / 2;
    var g := f / 2;
    KeepBit(a, 0x40, 0x5F);
    KeepBit(b, 0x20, 0x2F);
    KeepBit(c, 0x10, 0x17);
    KeepBit(d, 8, 0xB);
    KeepBit(e, 4, 5);
    KeepBit(f, 2, 2);
    KeepBit(g, 1, 1);
    TopBit(g / 2);
    assert Low(f, 1) == f % 2;
    assert Low(e, 2) == 2 * Low(f, 1) + e % 2;
    assert Low(d, 3) == 2 * Low(e, 2) + d % 2;
    assert Low(c, 4) == 2 * Low(d, 3) + c % 2;
    assert Low(b, 5) == 2 * Low(c, 4) + b % 2;
  }

  /** `(a | mark) & 0xFF` for the lead bytes of two, three and four octets. */
  lemma LeadBits(a: nat)
    ensures a < 0x20 ==> And(Or(a, 0xC0), 0xFF) == 0xC0 + a
    ensures a < 0x10 ==> And(Or(a, 0xE0), 0xFF) == 0xE0 + a
    ensures a < 0x08 ==> And(Or(a, 0xF0), 0xFF) == 0xF0 + a
  {
    var b := a / 2;
    var c := b / 2;
    var d := c / 2;
    var e := d / 2;
    KeepBit(a, 0x60, 0x7F);
    KeepBit(b, 0x30, 0x3F);
    KeepBit(c, 0x18, 0x1F);
    KeepBit(d, 0xC, 0xF);
    KeepBit(e, 6, 7);
    KeepBit(a, 0x70, 0x7F);
    KeepBit(b, 0x38, 0x3F);
    KeepBit(c, 0x1C, 0x1F);
    KeepBit(d, 0xE, 0xF);
    KeepBit(a, 0x78, 0x7F);
    KeepBit(b, 0x3C, 0x3F);
    KeepBit(c, 0x1E, 0x1F);
    AllKept();
  }

  lemma AllKept()
    ensures And(Or(0, 6), 7) == 6 && And(Or(0, 0xE), 0xF) == 0xE && And(Or(0, 0x1E), 0x1F) == 0x1E
  {
  }

  /** Numbers below a power of two are their low bits. */
  lemma {:induction false} LowIsAll(a: nat, k: nat)
    requires a < Pow2(k)
    ensures Low(a, k) == a
  {
    if k > 0 {
      LowIsAll(a / 2, k - 1);
    }
  }

  /** `a & 0x7F` keeps an ASCII code. */
  lemma AsciiBits(a: nat)
    requires a < 0x80
    ensures And(a, 0x7F) == a
  {
    assert Pow2(7) == 0x80;
    LowMask(a, 7);
    LowIsAll(a, 7);
  }

  /** `a & 0x3FF` takes the ten low bits: what a surrogate carries above its first value. */
  lemma {:induction false} LowOfSum(high: nat, x: nat, k: nat)
    requires x < Pow2(k)
    ensures Low(ShiftLeft(high, k) + x, k) == x
  {
    if k > 0 {
      var a := ShiftLeft(high, k) + x;
      assert a / 2 == ShiftLeft(high, k - 1) + x / 2 && a % 2 == x % 2;
      LowOfSum(high, x / 2, k - 1);
    }
  }

  lemma SurrogateBits(first: nat, second: nat)
    requires 0xD800 <= first <= 0xDBFF && 0xDC00 <= second <= 0xDFFF
    ensures And(first, 0x3FF) == first - 0xD800 && And(second, 0x3FF) == second - 0xDC00
    ensures Or(ShiftLeft(And(first, 0x3FF), 10), And(second, 0x3FF)) == (first - 0xD800) * 0x400 + (second - 0xDC00)
  {
    PowOf10();
    LowMask(first, 10);
    LowMask(second, 10);
    TenShifts(0x36);
    TenShifts(0x37);
    LowOfSum(0x36, first - 0xD800, 10);
    LowOfSum(0x37, second - 0xDC00, 10);
    TenShifts(first - 0xD800);
    OrAdds(first - 0xD800, second - 0xDC00, 10);
  }

  lemma PowOf10()
    ensures Pow2(10) == 0x400
  {
    assert Pow2(5) == 32;
  }

  lemma {:induction false} ShiftIsProduct(a: nat, k: nat)
    ensures ShiftLeft(a, k) == a * Pow2(k)
  {
    if k > 0 {
      ShiftIsProduct(a, k - 1);
      assert a * (2 * Pow2(k - 1)) == 2 * (a * Pow2(k - 1));
    }
  }

  lemma TenShifts(a: nat)
    ensures ShiftLeft(a, 10) == a * 0x400
  {
    PowOf10();
    ShiftIsProduct(a, 10);
  }

  /** `>> 6` and the six low bits are quotient and remainder. */
  lemma SixShifts(a: nat)
    ensures Low(a, 6) == a % 0x40 && ShiftRight(a, 6) == a / 0x40
  {
    var b := a / 2;
    var c := b / 2;
    var d := c / 2;
    ThreeShifts(a);
    ThreeShifts(d);
    assert ShiftRight(a, 6) == ShiftRight(b, 5) == ShiftRight(c, 4) == ShiftRight(d, 3);
    assert Low(a, 6) == 2 * Low(b, 5) + a % 2;
    assert Low(b, 5) == 2 * Low(c, 4) + b % 2;
    assert Low(c, 4) == 2 * Low(d, 3) + c % 2;
    assert Low(a, 3) == 4 * (c % 2) + 2 * (b % 2) + a % 2;
    ByEight(a);
  }

  lemma ByEight(a: nat)
    ensures a / 0x40 == a / 8 / 8 && a % 0x40 == 8 * (a / 8 % 8) + a % 8
  {
  }

  lemma ThreeShifts(a: nat)
    ensures ShiftRight(a, 3) == a / 8 == a / 2 / 2 / 2
    ensures Low(a, 3) == a % 8
  {
    var b := a / 2;
    var c := b / 2;
    assert ShiftRight(a, 3) == ShiftRight(b, 2) == ShiftRight(c, 1) == c / 2;
    assert Low(c, 1) == c % 2;
    assert Low(b, 2) == 2 * Low(c, 1) + b % 2;
    assert Low(a, 3) == 2 * Low(b, 2) + a % 2;
  }
}
