/** ECMAScript numbers: bounds, and the 32-bit integer operators on unbounded integers. */
module JsNumbers {

  const MAXIMUM_SAFE_INTEGER := 0x1F_FFFF_FFFF_FFFF

  /** `Math.min` */
  function Min(a: int, b: int): int {
    if a <= b then a else b
  }

  const TWO_31: int := 0x8000_0000
  const TWO_32: int := 0x1_0000_0000

  function Pow2(k: nat): (p: nat)
    ensures p > 0
  {
    if k == 0 then 1 else 2 * Pow2(k - 1)
  }

  /** The unsigned reading of the low 32 bits (`x >>> 0`). */
  function ToUint32(x: int): (u: nat)
    ensures u < TWO_32
  {
    x % TWO_32
  }

  /** The signed reading of the low 32 bits: what `|` and `<<` return. */
  function ToInt32(x: int): int {
    var u := ToUint32(x);
    if u >= TWO_31 then u - TWO_32 else u
  }

  /** `x << k` */
  function ShiftLeft(x: int, k: nat): int {
    ToInt32(Pow2(k) * ToUint32(x))
  }

  /** Bitwise or of two naturals, one binary digit at a time. */
  function OrBits(x: nat, y: nat): nat
    decreases x + y
  {
    if x == 0 then y
    else if y == 0 then x
    else (if x % 2 == 1 || y % 2 == 1 then 1 else 0) + 2 * OrBits(x / 2, y / 2)
  }

  /** `x | y` */
  function BitOr(x: int, y: int): int {
    ToInt32(OrBits(ToUint32(x), ToUint32(y)))
  }

  lemma OrOfDouble(x: nat, z: nat)
    requires x > 0 && z > 0
    ensures OrBits(x, 2 * z) == x % 2 + 2 * OrBits(x / 2, z)
  {
  }

  lemma TimesIsLarger(p: nat, y: nat)
    requires p > 0
    ensures p * y >= y
  {
  }

  /** Or-ing in a number shifted past every digit of the other one adds the two. */
  lemma {:induction false} OrAboveAdds(x: nat, y: nat, k: nat)
    requires x < Pow2(k)
    ensures OrBits(x, Pow2(k) * y) == x + Pow2(k) * y
    decreases k
  {
    if k == 0 || x == 0 || y == 0 {
    } else {
      var z := Pow2(k - 1) * y;
      TimesIsLarger(Pow2(k - 1), y);
      assert Pow2(k) * y == 2 * z;
      OrAboveAdds(x / 2, y, k - 1);
      OrOfDouble(x, z);
    }
  }

  lemma UnsignedOfSigned(u: nat)
    requires u < TWO_32
    ensures ToUint32(ToInt32(u)) == u
  {
  }

  lemma ShiftLeftInRange(y: nat, k: nat)
    requires Pow2(k) * y < TWO_32
    ensures ShiftLeft(y, k) == ToInt32(Pow2(k) * y)
  {
    TimesIsLarger(Pow2(k), y);
    hide Pow2;
  }

  lemma BitOrOfUnsigned(x: nat, high: nat)
    requires x < TWO_32 && high < TWO_32
    ensures BitOr(x, ToInt32(high)) == ToInt32(OrBits(x, high))
  {
    hide OrBits;
    UnsignedOfSigned(high);
    assert ToUint32(x) == x;
  }

  /** `x | y << k`, when the shifted number lies above every digit of `x`. */
  lemma OrShifted(x: nat, y: nat, k: nat, high: nat)
    requires x < Pow2(k) && high == Pow2(k) * y
    requires x + high < TWO_32
    ensures BitOr(x, ShiftLeft(y, k)) == ToInt32(x + high)
  {
    calc {
      BitOr(x, ShiftLeft(y, k));
      { ShiftLeftInRange(y, k); }
      BitOr(x, ToInt32(high));
      { BitOrOfUnsigned(x, high); }
      ToInt32(OrBits(x, high));
      { OrAboveAdds(x, y, k); }
      ToInt32(x + high);
    }
  }
}
