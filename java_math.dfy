/** The pieces of java.lang the dictionary relies on: the 32-bit `int` a
    `hashCode()` returns, Java's truncating `%`, and `Math.floorMod`. */
module JavaMath {

  /** Java's `int`: a hash code is any value in this range, negative ones included. */
  newtype Int32 = x: int | -0x8000_0000 <= x < 0x8000_0000

  /** Java's `x % y` for a positive divisor: the remainder of the division
      truncated toward zero, which carries the sign of the dividend and
      differs from it by a multiple of `y`. */
  function TruncRem(x: int, y: int): (r: int)
    requires y > 0
    ensures -y < r < y
    ensures (x - r) % y == 0
    ensures x >= 0 ==> r >= 0
    ensures x <= 0 ==> r <= 0
  {
    if x >= 0 then
      ModUnique(x - x % y, y, x / y, 0);
      x % y
    else
      var a := -x;
      assert a == a / y * y + a % y;
      ModUnique(x + a % y, y, -(a / y), 0);
      -(a % y)
  }

  /** `Math.floorMod(x, y)`: the truncating remainder, moved up by `y` when the
      dividend is negative and the remainder is not zero. */
  function FloorMod(x: int, y: int): (r: int)
    requires y > 0
    ensures 0 <= r < y
  {
    var m := TruncRem(x, y);
    if x < 0 && m != 0 then m + y else m
  }

  /** A division fact the solver does not find by itself: `x % y` is the only
      remainder in `[0, y)` that differs from `x` by a multiple of `y`. */
  lemma ModUnique(x: int, y: int, q: int, r: int)
    requires y > 0 && 0 <= r < y && x == q * y + r
    ensures x % y == r
  {
    var d := q - x / y;
    assert d * y == x % y - r;
  }

  /** For a positive divisor, `Math.floorMod` agrees with the Euclidean `%`
      of the model, for negative dividends too. */
  lemma FloorModIsEuclidean(x: int, y: int)
    requires y > 0
    ensures FloorMod(x, y) == x % y
  {
    if x < 0 {
      var a := -x;
      var q, m := a / y, a % y;
      assert a == q * y + m;
      if m == 0 {
        ModUnique(x, y, -q, 0);
      } else {
        ModUnique(x, y, -q - 1, y - m);
      }
    }
  }

  /** Truncating `%` alone would send every negative hash code that is not a
      multiple of 256 outside the table; `Math.floorMod` moves it up by 256,
      back into it. */
  lemma TruncRemOfNegativeHash(h: Int32)
    requires h < 0 && (h as int) % 256 != 0
    ensures TruncRem(h as int, 256) < 0
    ensures FloorMod(h as int, 256) == TruncRem(h as int, 256) + 256
  {
  }
}
