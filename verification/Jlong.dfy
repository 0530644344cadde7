/**
 The 64-bit integers that JRI builds from two 32-bit halves, proved against arithmetic on integers.
*/
module Words {
  const TWO16: int := 0x1_0000
  const TWO31: int := 0x8000_0000
  const TWO32: int := 0x1_0000_0000
  const TWO63: int := 0x8000_0000_0000_0000
  const TWO64: int := 0x1_0000_0000_0000_0000

  type Half = x: int | 0 <= x < 0x1_0000_0000

  /** 32-bit and 64-bit unsigned wrap-around. */
  function W(x: int): Half {
    x % TWO32
  }

  function W64(x: int): int {
    x % TWO64
  }

  function Join(hi: Half, lo: Half): int {
    hi * TWO32 + lo
  }

  /** A word read as a two's complement number. */
  function Signed(x: int): int {
    if x >= TWO63 then x - TWO64 else x
  }

  function SignedHalf(x: Half): int {
    if x >= TWO31 then x - TWO32 else x
  }

  function Abs(x: int): nat {
    if x < 0 then -x else x
  }

  /** Division that truncates toward zero, and its remainder, which takes the sign of the dividend. */
  function TruncDiv(a: int, b: int): int
    requires b != 0
  {
    if (a < 0) != (b < 0) then -(Abs(a) / Abs(b)) else Abs(a) / Abs(b)
  }

  function TruncMod(a: int, b: int): int
    requires b != 0
  {
    if a < 0 then -(Abs(a) % Abs(b)) else Abs(a) % Abs(b)
  }

  lemma WrapUnique(x: int, k: int, r: int)
    requires x == k * TWO64 + r && 0 <= r < TWO64
    ensures W64(x) == r
  {
  }

  lemma WrapOfMultiple(x: int, k: int)
    ensures W64(x + k * TWO64) == W64(x)
  {
    var q := x / TWO64;
    WrapUnique(x + k * TWO64, q + k, x % TWO64);
  }

  lemma WrapProduct(x: int, y: int)
    ensures W64(W64(x) * y) == W64(x * y)
  {
    var k := x / TWO64;
    assert x * y == W64(x) * y + (k * y) * TWO64 by {
      assert x == k * TWO64 + W64(x);
      Distribute(k * TWO64, W64(x), y);
      assert k * TWO64 * y == k * y * TWO64;
    }
    WrapOfMultiple(W64(x) * y, k * y);
  }

  lemma Distribute(a: int, b: int, c: int)
    ensures (a + b) * c == a * c + b * c
  {
  }

  lemma AtMostProduct(a: int, b: int, c: int)
    requires 0 <= a <= b && 0 <= c
    ensures 0 <= a * c <= b * c
  {
    Distribute(a, b - a, c);
  }

  /** What makes truncation a division: quotient and remainder give the dividend back. */
  lemma TruncRecombines(a: int, b: int)
    requires b != 0
    ensures TruncDiv(a, b) * b + TruncMod(a, b) == a
    ensures Abs(TruncMod(a, b)) < Abs(b)
  {
    var m, n := Abs(a), Abs(b);
    assert m == (m / n) * n + m % n;
    var q := m / n;
    if b < 0 {
      assert q * b == -(q * n) && (-q) * b == q * n;
    } else {
      assert (-q) * b == -(q * n);
    }
  }
}

module Jlong {
  import opened Words

  class Jlong {
    var lo: Half
    var hi: Half

    constructor (hi: Half, lo: Half)
      ensures this.hi == hi && this.lo == lo
    {
      this.hi, this.lo := hi, lo;
    }

    function Bits(): int
      reads this
    {
      Join(hi, lo)
    }
  }

  datatype Relation = Less | LessOrEqual | Greater | GreaterOrEqual

  predicate Holds(op: Relation, x: int, y: int) {
    match op
    case Less => x < y
    case LessOrEqual => x <= y
    case Greater => x > y
    case GreaterOrEqual => x >= y
  }

  predicate IsStrict(op: Relation) {
    op.Less? || op.Greater?
  }

  predicate Cmp(op: Relation, a: Jlong, b: Jlong)
    reads a, b
  {
    Holds(op, SignedHalf(a.hi), SignedHalf(b.hi)) || (a.hi == b.hi && Holds(op, a.lo, b.lo))
  }

  predicate UCmp(op: Relation, a: Jlong, b: Jlong)
    reads a, b
  {
    Holds(op, a.hi, b.hi) || (a.hi == b.hi && Holds(op, a.lo, b.lo))
  }

  /** Comparing by halves is comparing exactly where the relation is strict, the high halves differ, or the low ones
      stand in the relation. */
  lemma CmpCompares(op: Relation, a: Jlong, b: Jlong)
    ensures (Cmp(op, a, b) <==> Holds(op, Signed(a.Bits()), Signed(b.Bits())))
            <==> IsStrict(op) || a.hi != b.hi || Holds(op, a.lo, b.lo)
    ensures (UCmp(op, a, b) <==> Holds(op, a.Bits(), b.Bits()))
            <==> IsStrict(op) || a.hi != b.hi || Holds(op, a.lo, b.lo)
  {
    OrderByHalves(a.hi, a.lo, b.hi, b.lo);
    hide Signed, SignedHalf, Join;
  }

  lemma OrderByHalves(aHi: Half, aLo: Half, bHi: Half, bLo: Half)
    ensures var x, y := Join(aHi, aLo), Join(bHi, bLo);
            && (x < y <==> aHi < bHi || (aHi == bHi && aLo < bLo))
            && (Signed(x) < Signed(y) <==> SignedHalf(aHi) < SignedHalf(bHi) || (aHi == bHi && aLo < bLo))
            && (x == y <==> Signed(x) == Signed(y)) && (x == y <==> aHi == bHi && aLo == bLo)
            && (SignedHalf(aHi) == SignedHalf(bHi) <==> aHi == bHi)
  {
  }

  // r may be the same object as a or b everywhere, as in the macros' own uses.

  method Neg(r: Jlong, a: Jlong)
    modifies r
    ensures r.Bits() == W64(-old(a.Bits()))
  {
    var aLo: int, aHi: int := a.lo, a.hi;
    r.lo := W(-aLo);
    r.hi := W(-aHi - if r.lo != 0 then 1 else 0);
    WrapUnique(-old(a.Bits()), if aLo == aHi == 0 then 0 else -1, r.Bits());
  }

  method Add(r: Jlong, a: Jlong, b: Jlong)
    modifies r
    ensures r.Bits() == W64(old(a.Bits()) + old(b.Bits()))
  {
    var aLo: int, aHi: int, bLo: int, bHi: int := a.lo, a.hi, b.lo, b.hi;
    r.lo := W(aLo + bLo);
    var carry := if r.lo < bLo then 1 else 0;
    r.hi := W(aHi + bHi + carry);
    assert aLo + bLo == r.lo + carry * TWO32;
    WrapUnique(old(a.Bits()) + old(b.Bits()), if aHi + bHi + carry >= TWO32 then 1 else 0, r.Bits());
  }

  method Sub(r: Jlong, a: Jlong, b: Jlong)
    modifies r
    ensures r.Bits() == W64(old(a.Bits()) - old(b.Bits()))
  {
    var aLo: int, aHi: int, bLo: int, bHi: int := a.lo, a.hi, b.lo, b.hi;
    r.lo := W(aLo - bLo);
    var borrow := if aLo < bLo then 1 else 0;
    r.hi := W(aHi - bHi - borrow);
    assert aLo - bLo == r.lo - borrow * TWO32;
    WrapUnique(old(a.Bits()) - old(b.Bits()), if aHi - bHi - borrow < 0 then -1 else 0, r.Bits());
  }

  /** The product of the limbs, in base 2^16. */
  lemma LimbProduct(a1: int, a0: int, b1: int, b0: int)
    ensures (a1 * TWO16 + a0) * (b1 * TWO16 + b0) ==
            (a1 * b1) * TWO32 + (a0 * b1 + a1 * b0) * TWO16 + a0 * b0
  {
    var a, b := a1 * TWO16, b1 * TWO16;
    assert (a + a0) * (b + b0) == a * b + a * b0 + a0 * b + a0 * b0 by {
      Distribute(a, a0, b + b0);
    }
    assert a * b == a1 * b1 * TWO32;
  }

  /** With 16-bit limbs no partial product wraps, and adding the high limb of the lowest one does not either. */
  lemma LimbBound(a: int, b: int)
    requires 0 <= a < TWO16 && 0 <= b < TWO16
    ensures 0 <= a * b <= (TWO16 - 1) * (TWO16 - 1)
  {
    AtMostProduct(a, TWO16 - 1, b);
  }

  predicate IsLimbProduct(y: int) {
    0 <= y <= (TWO16 - 1) * (TWO16 - 1)
  }

  /** The carry arithmetic on the four partial products. */
  lemma Columns(y0: int, y1: int, y2: int, y3: int)
    requires IsLimbProduct(y0) && IsLimbProduct(y1) && IsLimbProduct(y2) && IsLimbProduct(y3)
    requires y3 * TWO32 + (y1 + y2) * TWO16 + y0 < TWO64
    ensures var z := W(W(y1 + y0 / TWO16) + y2);
            var z3: int := if z < y2 then W(y3 + TWO16) else y3;
            Join(W(z3 + z / TWO16), W(W((z % TWO16) * TWO16) + y0 % TWO16)) ==
              y3 * TWO32 + (y1 + y2) * TWO16 + y0
  {
    var m := y1 + y0 / TWO16;
    assert W(m) == m;
    var carry := if m + y2 >= TWO32 then 1 else 0;
    var z: int := W(m + y2);
    assert m + y2 == z + carry * TWO32 && (z < y2 <==> carry == 1);
    var z3: int := y3 + carry * TWO16;
    assert W(y3 + TWO16) == y3 + TWO16;
    Recombine(y0, z, z3, y3 * TWO32 + (y1 + y2) * TWO16 + y0);
  }

  lemma Recombine(y0: int, z: int, z3: int, total: int)
    requires 0 <= y0 && 0 <= z < TWO32 && 0 <= z3 && 0 <= total < TWO64
    requires total == z3 * TWO32 + (z - y0 / TWO16) * TWO16 + y0
    ensures Join(W(z3 + z / TWO16), W(W((z % TWO16) * TWO16) + y0 % TWO16)) == total
  {
    var lo, hi := (z % TWO16) * TWO16 + y0 % TWO16, z3 + z / TWO16;
    assert z == (z / TWO16) * TWO16 + z % TWO16;
    assert y0 == (y0 / TWO16) * TWO16 + y0 % TWO16;
    assert total == hi * TWO32 + lo;
    assert 0 <= lo < TWO32 && 0 <= hi < TWO32;
  }

  /** The 64-bit product of two words, by 16-bit limbs and one conditional carry: nothing is lost. */
  method Mul32(r: Jlong, a: Half, b: Half)
    modifies r
    ensures r.Bits() == a as int * b as int
  {
    hide W, Join, IsLimbProduct;
    var a1: int, a0: int := a / 0x1_0000, a % 0x1_0000;
    var b1: int, b0: int := b / 0x1_0000, b % 0x1_0000;
    ProductOfHalves(a, b);
    var y0: int, y1: int, y2: int, y3: int := W(a0 * b0), W(a0 * b1), W(a1 * b0), W(a1 * b1);
    Columns(y0, y1, y2, y3);
    y1 := W(y1 + y0 / TWO16);
    y1 := W(y1 + y2);
    if y1 < y2 {
      y3 := W(y3 + TWO16);
    }
    r.lo := W(W((y1 % TWO16) * TWO16) + y0 % TWO16);
    r.hi := W(y3 + y1 / TWO16);
  }

  lemma ProductOfHalves(a: int, b: int)
    requires 0 <= a < TWO32 && 0 <= b < TWO32
    ensures var a1, a0, b1, b0 := a / 0x1_0000, a % 0x1_0000, b / 0x1_0000, b % 0x1_0000;
            && W(a0 * b0) == a0 * b0 && W(a0 * b1) == a0 * b1 && W(a1 * b0) == a1 * b0 && W(a1 * b1) == a1 * b1
            && IsLimbProduct(a0 * b0) && IsLimbProduct(a0 * b1) && IsLimbProduct(a1 * b0) && IsLimbProduct(a1 * b1)
            && (a1 * b1) * TWO32 + (a0 * b1 + a1 * b0) * TWO16 + a0 * b0 == a * b < TWO64
  {
    var a1, a0, b1, b0 := a / 0x1_0000, a % 0x1_0000, b / 0x1_0000, b % 0x1_0000;
    LimbBound(a0, b0);
    LimbBound(a0, b1);
    LimbBound(a1, b0);
    LimbBound(a1, b1);
    LimbProduct(a1, a0, b1, b0);
    ProductBound(a, b);
  }

  lemma ProductBound(a: int, b: int)
    requires 0 <= a < TWO32 && 0 <= b < TWO32
    ensures 0 <= a * b < TWO64
  {
    AtMostProduct(a, TWO32 - 1, b);
  }

  method Mul(r: Jlong, a: Jlong, b: Jlong)
    modifies r
    ensures r.Bits() == W64(old(a.Bits()) * old(b.Bits()))
  {
    var aLo: int, aHi: int, bLo: int, bHi: int := a.lo, a.hi, b.lo, b.hi;
    Mul32(r, aLo, bLo);
    var hi: int := r.hi;
    r.hi := W(hi + W(W(aHi * bLo) + W(aLo * bHi)));
    WrapsOnce(hi, aHi * bLo, aLo * bHi);
    HalvesProduct(aHi, aLo, bHi, bLo);
    var k := (hi + aHi * bLo + aLo * bHi) / TWO32;
    WrapUnique(old(a.Bits()) * old(b.Bits()), k + aHi * bHi, r.Bits());
  }

  lemma WrapsOnce(x: int, y: int, z: int)
    ensures W(x + W(W(y) + W(z))) == W(x + y + z)
  {
  }

  lemma HalvesProduct(aHi: int, aLo: int, bHi: int, bLo: int)
    ensures (aHi * TWO32 + aLo) * (bHi * TWO32 + bLo) ==
            (aHi * bHi) * TWO64 + (aHi * bLo + aLo * bHi) * TWO32 + aLo * bLo
  {
    var a, b := aHi * TWO32, bHi * TWO32;
    assert (a + aLo) * (b + bLo) == a * b + a * bLo + aLo * b + aLo * bLo by {
      Distribute(a, aLo, b + bLo);
    }
    assert a * b == aHi * bHi * TWO64;
  }

  /** `jlong_udivmod`, whose code is elsewhere: unsigned quotient and remainder, each unless its pointer is null. */
  method UDivMod(qp: Jlong?, rp: Jlong?, a: Jlong, b: Jlong)
    requires b.Bits() != 0 && qp != a && qp != b && rp != a && rp != b && (qp != null ==> qp != rp)
    modifies if qp == null then {} else {qp}, if rp == null then {} else {rp}
    ensures qp != null ==> qp.Bits() == a.Bits() / b.Bits()
    ensures rp != null ==> rp.Bits() == a.Bits() % b.Bits()
  {
    var q, m := a.Bits() / b.Bits(), a.Bits() % b.Bits();
    QuotientBound(a.Bits(), b.Bits());
    if qp != null {
      qp.hi, qp.lo := q / TWO32, q % TWO32;
    }
    if rp != null {
      rp.hi, rp.lo := m / TWO32, m % TWO32;
    }
  }

  lemma QuotientBound(a: int, b: int)
    requires 0 <= a < TWO64 && 0 < b
    ensures 0 <= a / b <= a
  {
    AtMostProduct(1, b, a / b);
  }

  lemma SignBit(hi: Half, lo: Half)
    ensures 0 <= Join(hi, lo) < TWO64
    ensures -TWO63 <= Signed(Join(hi, lo)) < TWO63
    ensures SignedHalf(hi) < 0 <==> Signed(Join(hi, lo)) < 0
    ensures Abs(Signed(Join(hi, lo))) == if SignedHalf(hi) < 0 then W64(-Join(hi, lo)) else Join(hi, lo)
    ensures Abs(Signed(Join(hi, lo))) == 0 <==> Join(hi, lo) == 0
  {
    var x := Join(hi, lo);
    if hi >= TWO31 {
      WrapUnique(-x, -1, TWO64 - x);
    }
  }

  /** The absolute value of `a` in a new number, and whether `a` is negative. */
  method Magnitude(a: Jlong) returns (m: Jlong, negative: bool)
    ensures fresh(m) && m.Bits() == Abs(Signed(a.Bits())) && negative == (Signed(a.Bits()) < 0)
    ensures -TWO63 <= Signed(a.Bits()) < TWO63 && (m.Bits() == 0 <==> a.Bits() == 0)
  {
    hide W64, Signed, SignedHalf, Abs, Join;
    m := new Jlong(0, 0);
    negative := SignedHalf(a.hi) < 0;
    SignBit(a.hi, a.lo);
    if negative {
      Neg(m, a);
    } else {
      m.hi, m.lo := a.hi, a.lo;
    }
  }

  /** Division truncates toward zero. */
  method Div(r: Jlong, a: Jlong, b: Jlong)
    requires b.Bits() != 0
    modifies r
    ensures r.Bits() == W64(TruncDiv(Signed(old(a.Bits())), Signed(old(b.Bits()))))
  {
    hide W64, Signed, Abs, Join, TruncDiv;
    ghost var x, y := Signed(a.Bits()), Signed(b.Bits());
    var m, negative := Magnitude(a);
    var n, flip := Magnitude(b);
    if flip {
      negative := !negative;
    }
    QuotientSign(x, y);
    UDivMod(r, null, m, n);
    if negative {
      Neg(r, r);
    }
  }

  lemma QuotientSign(x: int, y: int)
    requires -TWO63 <= x < TWO63 && -TWO63 <= y < TWO63
    ensures Abs(y) == 0 <==> y == 0
    ensures y != 0 ==> var q := Abs(x) / Abs(y); W64(TruncDiv(x, y)) == if (x < 0) != (y < 0) then W64(-q) else q
  {
    if y != 0 {
      QuotientBound(Abs(x), Abs(y));
    }
  }

  /** Reading the quotient as a signed number gives the truncated quotient, except that the most negative number
      divided by -1 does not fit. */
  lemma QuotientFits(x: int, y: int)
    requires -TWO63 <= x < TWO63 && -TWO63 <= y < TWO63 && y != 0
    ensures Signed(W64(TruncDiv(x, y))) == TruncDiv(x, y) <==> !(x == -TWO63 && y == -1)
  {
    var q, n: int := Abs(x) / Abs(y), Abs(y);
    QuotientBound(Abs(x), n);
    if n >= 2 {
      AtMostProduct(2, n, q);
      assert q * n <= Abs(x);
      assert q < TWO63;
    }
  }

  /** The remainder takes the sign of the dividend. */
  method Mod(r: Jlong, a: Jlong, b: Jlong)
    requires b.Bits() != 0
    modifies r
    ensures r.Bits() == W64(TruncMod(Signed(old(a.Bits())), Signed(old(b.Bits()))))
  {
    hide W64, Signed, Abs, Join, TruncMod;
    ghost var x, y := Signed(a.Bits()), Signed(b.Bits());
    var m, negative := Magnitude(a);
    var n, _ := Magnitude(b);
    QuotientSign(x, y);
    RemainderSign(x, y);
    UDivMod(null, r, m, n);
    if negative {
      Neg(r, r);
    }
  }

  /** The remainder always fits. */
  lemma RemainderSign(x: int, y: int)
    requires -TWO63 <= x < TWO63 && -TWO63 <= y < TWO63 && y != 0
    ensures var m := Abs(x) % Abs(y); W64(TruncMod(x, y)) == if x < 0 then W64(-m) else m
    ensures Signed(W64(TruncMod(x, y))) == TruncMod(x, y)
  {
    var m := Abs(x) % Abs(y);
    assert 0 <= m < Abs(y) <= TWO63;
    if x < 0 && m > 0 {
      WrapUnique(-m, -1, TWO64 - m);
    }
  }

  /** Multiplying the quotient back and adding the remainder gives the dividend, the most negative one included. */
  lemma DivModRecombine(a: int, b: int)
    requires 0 <= a < TWO64 && 0 < b < TWO64
    ensures var q, m := W64(TruncDiv(Signed(a), Signed(b))), W64(TruncMod(Signed(a), Signed(b)));
            W64(W64(q * b) + m) == a
  {
    var x, y := Signed(a), Signed(b);
    var t, m := TruncDiv(x, y), TruncMod(x, y);
    TruncRecombines(x, y);
    var k := if b >= TWO63 then 1 else 0;
    assert b == y + k * TWO64;
    Congruent(t, y, k);
    WrapProduct(t, b);
    assert W64(W64(t) * b) == W64(t * y);
    WrapSum(t * y, m);
    WrapSum(m, W64(t * y));
    assert W64(x) == a by {
      WrapUnique(x, if a >= TWO63 then -1 else 0, a);
    }
  }

  lemma Congruent(t: int, y: int, k: int)
    ensures W64(t * (y + k * TWO64)) == W64(t * y)
  {
    assert t * (y + k * TWO64) == t * y + (t * k) * TWO64 by {
      Distribute(y, k * TWO64, t);
    }
    WrapOfMultiple(t * y, t * k);
  }

  lemma WrapSum(x: int, y: int)
    ensures W64(W64(x) + y) == W64(x + y)
  {
    assert x == (x / TWO64) * TWO64 + W64(x);
    WrapOfMultiple(W64(x) + y, x / TWO64);
  }
}

module JlongShifts {
  import opened Words
  import opened Jlong

  function Pow2(n: nat): (p: int)
    ensures p >= 1
  {
    if n == 0 then 1 else 2 * Pow2(n - 1)
  }

  /** Bitwise or. */
  function Or(x: nat, y: nat): nat
    decreases x + y
  {
    if x == 0 && y == 0 then 0
    else 2 * Or(x / 2, y / 2) + if x % 2 == 1 || y % 2 == 1 then 1 else 0
  }

  lemma {:induction false} OrZero(x: nat)
    ensures Or(x, 0) == x
    decreases x
  {
    if x > 0 {
      OrZero(x / 2);
    }
  }

  /** Where no bit is set twice, or is addition: here `x` is a multiple of a power of two and `y` is below it. */
  lemma {:induction false} OrAdds(x: nat, y: nat, b: nat, k: nat)
    requires x == k * Pow2(b) && y < Pow2(b)
    ensures Or(x, y) == x + y
    decreases b
  {
    if b == 0 {
      OrZero(x);
    } else {
      var half := k * Pow2(b - 1);
      assert x == 2 * half;
      OrAdds(half, y / 2, b - 1, k);
    }
  }

  lemma {:induction false} Pow2Splits(m: nat, n: nat)
    ensures Pow2(m) * Pow2(n) == Pow2(m + n)
    decreases m
  {
    if m > 0 {
      Pow2Splits(m - 1, n);
      assert Pow2(m) * Pow2(n) == 2 * (Pow2(m - 1) * Pow2(n));
    }
  }

  lemma Pow2Values()
    ensures Pow2(32) == TWO32
  {
    assert Pow2(8) == 256;
    Pow2Splits(8, 8);
    Pow2Splits(16, 16);
  }

  lemma WrapOfHalf(x: Half)
    ensures W(x) == x
  {
  }

  lemma Pow2Zero()
    ensures Pow2(0) == 1
  {
  }

  /** How far the macros really shift: beyond 31 only the low five bits of the rest count. */
  function Effective(b: Half): nat {
    if b < 32 then b else 32 + b % 32
  }

  /** The two parts into which shifting a word by `b` cuts it, with `p` = 2^b and `q` = 2^(32-b). */
  lemma Cut(x: Half, p: int, q: int)
    requires p >= 1 && q >= 1 && p * q == TWO32
    ensures W(x * p) == (x % q) * p && x * p == (x / q) * TWO32 + W(x * p)
    ensures 0 <= x / q < p && (x % q) * p <= TWO32 - p
  {
    var d, m: int := x / q, x % q;
    assert x == d * q + m;
    assert x * p == d * TWO32 + m * p by {
      Distribute(d * q, m, p);
      assert d * q * p == d * (p * q);
    }
    AtMostProduct(m, q - 1, p);
    assert (q - 1) * p == TWO32 - p by {
      Distribute(q, -1, p);
    }
    if d >= p {
      AtMostProduct(p, d, q);
    }
  }

  lemma OrOfCuts(high: int, low: int, b: nat, k: int)
    requires b < 32 && high == k * Pow2(b) && 0 <= k && 0 <= low < Pow2(b) && high <= TWO32 - Pow2(b)
    ensures 0 <= high && Or(high, low) == high + low < TWO32
  {
    AtMostProduct(0, k, Pow2(b));
    OrAdds(high, low, b, k);
  }

  method Shl(r: Jlong, a: Jlong, b: Half)
    modifies r
    ensures r.Bits() == W64(old(a.Bits()) * Pow2(Effective(b)))
  {
    var lo: int, hi: int := a.lo, a.hi;
    if b == 0 {
      r.lo, r.hi := lo, hi;
    } else if b < 32 {
      ShlParts(hi, lo, b);
      r.lo := W(lo * Pow2(b));
      r.hi := Or(W(hi * Pow2(b)), lo / Pow2(32 - b));
    } else {
      ShlFar(hi, lo, b % 32);
      r.lo := 0;
      r.hi := W(lo * Pow2(b % 32));
    }
  }

  lemma ShlParts(hi: Half, lo: Half, b: nat)
    requires 0 < b < 32
    ensures var high: int, low: int := W(hi * Pow2(b)), lo / Pow2(32 - b);
            0 <= high && 0 <= low && 0 <= Or(high, low) < TWO32 &&
            Or(high, low) * TWO32 + W(lo * Pow2(b)) == W64(Join(hi, lo) * Pow2(b))
  {
    hide W, W64, Or, Pow2;
    var p, q := Pow2(b), Pow2(32 - b);
    Pow2Splits(b, 32 - b);
    Pow2Values();
    Cut(lo, p, q);
    Cut(hi, p, q);
    OrOfCuts(W(hi * p), lo / q, b, hi % q);
    var k := hi / q;
    assert Join(hi, lo) * p == k * TWO64 + (W(hi * p) + lo / q) * TWO32 + W(lo * p) by {
      Distribute(hi * TWO32, lo, p);
      assert hi * TWO32 * p == (hi * p) * TWO32;
    }
    WrapUnique(Join(hi, lo) * p, k, (W(hi * p) + lo / q) * TWO32 + W(lo * p));
  }

  lemma ShlFar(hi: Half, lo: Half, e: nat)
    ensures Join(W(lo * Pow2(e)), 0) == W64(Join(hi, lo) * Pow2(32 + e))
  {
    Pow2Splits(32, e);
    Pow2Values();
    var p := Pow2(e);
    var k := lo * p / TWO32;
    assert Join(hi, lo) * (TWO32 * p) == (hi * p) * TWO64 + (lo * p) * TWO32 by {
      Distribute(hi * TWO32, lo, TWO32 * p);
      assert hi * TWO32 * (TWO32 * p) == (hi * p) * TWO64;
      assert lo * (TWO32 * p) == (lo * p) * TWO32;
    }
    assert lo * p == k * TWO32 + W(lo * p);
    WrapUnique(Join(hi, lo) * Pow2(32 + e), hi * p + k, W(lo * p) * TWO32);
  }

  /** Shifting a two-word number `s * 2^32 + lo` right by `b`, whatever the sign of `s`. */
  lemma ShrParts(s: int, lo: Half, b: nat)
    requires 0 < b < 32
    ensures var high: int, low: int := W(W(s) * Pow2(32 - b)), lo / Pow2(b);
            0 <= high && 0 <= low && 0 <= Or(high, low) < TWO32 &&
            (s * TWO32 + lo) / Pow2(b) == (s / Pow2(b)) * TWO32 + Or(high, low)
  {
    hide W, W64, Or, Pow2;
    var p, q := Pow2(b), Pow2(32 - b);
    Pow2Splits(b, 32 - b);
    Pow2Values();
    assert q * p == TWO32;
    Cut(W(s), q, p);
    Cut(lo, q, p);
    OrOfCuts(W(W(s) * q), lo / p, 32 - b, W(s) % p);
    var d, m := s / p, s % p;
    assert W(s) % p == m by {
      Remainders(s, q, p);
    }
    var r := m * q + lo / p;
    var l := lo % p;
    assert s * TWO32 + lo == (d * TWO32 + r) * p + l by {
      Distribute(d * TWO32 + m * q, lo / p, p);
      Distribute(d * TWO32, m * q, p);
      assert s == d * p + m;
      Distribute(d * p, m, TWO32);
      assert m * q * p == m * TWO32;
      assert d * TWO32 * p == d * p * TWO32;
    }
    QuotientIs(s * TWO32 + lo, p, d * TWO32 + r, l);
  }

  lemma QuotientIs(x: int, p: int, q: int, r: int)
    requires p > 0 && x == q * p + r && 0 <= r < p
    ensures x / p == q
  {
    var d := x / p - q;
    assert x == (x / p) * p + x % p;
    Distribute(x / p, -q, p);
    assert d * p == r - x % p;
    assert (-d) * p == -(d * p);
    if d >= 1 {
      AtMostProduct(1, d, p);
    } else if d <= -1 {
      AtMostProduct(1, -d, p);
    }
  }

  /** Wrapping to 32 bits keeps the remainder by a factor of 2^32. */
  lemma Remainders(s: int, q: int, p: int)
    requires p > 0 && q > 0 && q * p == TWO32
    ensures W(s) % p == s % p
  {
    var k, m := s / TWO32, s % TWO32;
    var d, r := m / p, m % p;
    assert s == (k * q + d) * p + r by {
      Distribute(k * q, d, p);
      assert k * q * p == k * (q * p);
    }
    QuotientIs(s, p, k * q + d, r);
  }

  method Ushr(r: Jlong, a: Jlong, b: Half)
    modifies r
    ensures r.Bits() == old(a.Bits()) / Pow2(Effective(b))
  {
    hide W, Or, Pow2;
    Pow2Zero();
    WrapOfHalf(a.hi);
    var lo: int, hi: int := a.lo, a.hi;
    if b == 0 {
      r.lo, r.hi := lo, hi;
    } else if b < 32 {
      ShrParts(hi, lo, b);
      QuotientSmall(hi, Pow2(b));
      r.lo := Or(W(hi * Pow2(32 - b)), lo / Pow2(b));
      r.hi := hi / Pow2(b);
    } else {
      ShrFar(hi, lo, b % 32);
      QuotientSmall(hi, Pow2(b % 32));
      r.lo := hi / Pow2(b % 32);
      r.hi := 0;
    }
  }

  lemma QuotientSmall(x: Half, p: int)
    requires p >= 1
    ensures 0 <= x / p < TWO32
  {
    QuotientBound(x, p);
  }

  /** Shifting by 32 or more drops the low word. */
  lemma ShrFar(s: int, lo: Half, e: nat)
    ensures (s * TWO32 + lo) / Pow2(32 + e) == s / Pow2(e)
  {
    Pow2Splits(32, e);
    Pow2Values();
    var p := Pow2(e);
    var d, m := s / p, s % p;
    var r := m * TWO32 + lo;
    assert s * TWO32 + lo == d * (TWO32 * p) + r by {
      assert s == d * p + m;
      Distribute(d * p, m, TWO32);
      assert d * p * TWO32 == d * (TWO32 * p);
    }
    assert r < TWO32 * p by {
      AtMostProduct(m, p - 1, TWO32);
      Distribute(p, -1, TWO32);
    }
    QuotientIs(s * TWO32 + lo, TWO32 * p, d, r);
  }

  /** The arithmetic shift divides rounding down. */
  method Shr(r: Jlong, a: Jlong, b: Half)
    modifies r
    ensures r.Bits() == W64(Signed(old(a.Bits())) / Pow2(Effective(b)))
  {
    var lo: int, hi: int := a.lo, a.hi;
    var s := SignedHalf(hi);
    SignedSplits(hi, lo);
    if b == 0 {
      r.lo, r.hi := lo, hi;
      SignedWraps(hi, lo);
    } else if b < 32 {
      ShrParts(s, lo, b);
      r.lo := Or(W(hi * Pow2(32 - b)), lo / Pow2(b));
      r.hi := W(s / Pow2(b));
      JoinWraps(s / Pow2(b), r.lo);
    } else {
      ShrFar(s, lo, b % 32);
      SignFill(s, Pow2(b % 32));
      r.lo := W(s / Pow2(b % 32));
      r.hi := W(s / Pow2(31));
    }
  }

  lemma SignedSplits(hi: Half, lo: Half)
    ensures Signed(Join(hi, lo)) == SignedHalf(hi) * TWO32 + lo && W(SignedHalf(hi)) == hi
  {
  }

  lemma SignedWraps(hi: Half, lo: Half)
    ensures W64(Signed(Join(hi, lo)) / Pow2(0)) == Join(hi, lo)
  {
    var x := Join(hi, lo);
    WrapUnique(Signed(x), if x >= TWO63 then -1 else 0, x);
  }

  lemma JoinWraps(h: int, lo: Half)
    ensures Join(W(h), lo) == W64(h * TWO32 + lo)
  {
    WrapUnique(h * TWO32 + lo, h / TWO32, Join(W(h), lo));
  }

  /** The high word filled with copies of the sign is the upper half of the sign-extended quotient. */
  lemma SignFill(s: int, p: int)
    requires -TWO31 <= s < TWO31 && p >= 1
    ensures Join(W(s / Pow2(31)), W(s / p)) == W64(s / p)
  {
    Pow2Splits(31, 1);
    Pow2Values();
    assert Pow2(1) == 2 && Pow2(31) == TWO31;
    var q := s / p;
    if s >= 0 {
      QuotientBound(s, p);
      WrapUnique(q, 0, q);
    } else {
      QuotientOfNegative(s, p);
      assert s / TWO31 == -1;
      NegativeHalf(q);
      WrapUnique(q, -1, q + TWO64);
    }
  }

  lemma NegativeHalf(q: int)
    requires -TWO31 <= q < 0
    ensures Join(W(-1), W(q)) == q + TWO64
  {
    assert W(-1) == TWO32 - 1 && W(q) == q + TWO32;
  }

  /** Rounding down, a negative number's quotient stays between it and -1. */
  lemma QuotientOfNegative(s: int, p: int)
    requires -TWO31 <= s < 0 && p >= 1
    ensures s <= s / p < 0
  {
    var x := -1 - s;
    var d, m := x / p, x % p;
    QuotientBound(x, p);
    assert x == d * p + m;
    assert (-1 - d) * p == -p - d * p;
    QuotientIs(s, p, -1 - d, p - 1 - m);
  }
}
