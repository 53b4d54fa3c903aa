/**
  Java's fixed-width integer arithmetic, written out over Dafny's unbounded
  integers: the ranges of `int` and `long`, division and remainder that
  truncate toward zero (JLS section 15.17.2 and 15.17.3), two's-complement
  wrap-around of `long` subtraction, and `Math.abs` on an `int`, which
  returns `Integer.MIN_VALUE` unchanged.
 */
module JavaArith {

  const IntMin: int := -0x8000_0000
  const IntMax: int := 0x7FFF_FFFF
  const LongMin: int := -0x8000_0000_0000_0000
  const LongMax: int := 0x7FFF_FFFF_FFFF_FFFF

  /** A value of Java's 32-bit `int`. */
  type Int32 = x: int | IntMin <= x <= IntMax

  /** A value of Java's 64-bit `long`. */
  type Int64 = x: int | LongMin <= x <= LongMax

  /** A value of Java's signed 8-bit `byte`. */
  type JavaByte = b: int | -128 <= b < 128

  function Abs(x: int): nat {
    if x < 0 then -x else x
  }

  /** Java's `/`: the quotient of the magnitudes, rounded toward zero,
      negative exactly when the operands' signs differ. */
  function Div(a: int, b: int): (q: int)
    requires b != 0
    ensures Abs(q) == Abs(a) / Abs(b)
    ensures q == 0 || (q < 0 <==> (a < 0) != (b < 0))
  {
    var x, y := Abs(a), Abs(b);
    assert y > 0;
    var n: nat := x / y;
    var q: int := n;
    if (a < 0) == (b < 0) then q else -q
  }

  /** Java's `%`: the remainder takes the sign of the dividend. */
  function Rem(a: int, b: int): (r: int)
    requires b != 0
    ensures Div(a, b) * b + r == a
    ensures Abs(r) < Abs(b)
    ensures a >= 0 ==> r >= 0
    ensures a <= 0 ==> r <= 0
  {
    var m := Abs(a) % Abs(b);
    var r := if a < 0 then -m else m;
    DivRem(a, b, r);
    r
  }

  lemma DivRem(a: int, b: int, r: int)
    requires b != 0
    requires r == (if a < 0 then -(Abs(a) % Abs(b)) else Abs(a) % Abs(b))
    ensures Div(a, b) * b + r == a
  {
    var x: int, y: int := Abs(a), Abs(b);
    var q: int, m: int := x / y, x % y;
    assert x == q * y + m;
    NegMul(q, y);
    if a < 0 && b < 0 {
      assert Div(a, b) == q && b == -y && a == -x && r == -m;
    } else if a < 0 {
      assert Div(a, b) == -q && b == y && a == -x && r == -m;
    } else if b < 0 {
      assert Div(a, b) == -q && b == -y && a == x && r == m;
    } else {
      assert Div(a, b) == q && b == y && a == x && r == m;
    }
  }

  lemma NegMul(q: int, y: int)
    ensures (-q) * y == -(q * y) && q * (-y) == -(q * y) && (-q) * (-y) == q * y
  {
  }

  /** Euclidean division of naturals brackets the dividend. */
  lemma QuotientBounds(x: nat, y: nat)
    requires y > 0
    ensures (x / y) * y <= x < (x / y + 1) * y
  {
    var q, r := x / y, x % y;
    assert x == q * y + r;
    assert (q + 1) * y == q * y + y;
  }

  /** Reduces an unbounded integer to `long` by two's-complement wrap-around. */
  function WrapLong(x: int): (r: Int64)
    ensures (r - x) % 0x1_0000_0000_0000_0000 == 0
    ensures LongMin <= x <= LongMax ==> r == x
  {
    var m := x % 0x1_0000_0000_0000_0000;
    if m > LongMax then m - 0x1_0000_0000_0000_0000 else m
  }

  /** Java's `long` subtraction `a - b`, which wraps on overflow. */
  function SubLong(a: Int64, b: Int64): (r: Int64)
    ensures LongMin <= a - b <= LongMax ==> r == a - b
    ensures a - b > LongMax ==> r == a - b - 0x1_0000_0000_0000_0000
    ensures a - b < LongMin ==> r == a - b + 0x1_0000_0000_0000_0000
  {
    WrapLong(a - b)
  }

  /** Java's `Math.abs(int)`: the magnitude, except that `Integer.MIN_VALUE`
      has no positive counterpart and comes back unchanged. */
  function AbsInt(x: Int32): (r: Int32)
    ensures x != IntMin ==> r >= 0 && (r == x || r == -x)
    ensures x == IntMin ==> r == IntMin
  {
    if x >= 0 then x else if x == IntMin then IntMin else -x
  }

  /** Java's narrowing cast `(int)` on a `long`: keeps the low 32 bits. */
  function NarrowToInt(x: Int64): (r: Int32)
    ensures IntMin <= x <= IntMax ==> r == x
    ensures (r - x) % 0x1_0000_0000 == 0
  {
    var m := x % 0x1_0000_0000;
    if m > IntMax then m - 0x1_0000_0000 else m
  }

  /** Java's narrowing cast `(byte)` on an `int`: keeps the low 8 bits. */
  function NarrowToByte(x: Int32): (r: JavaByte)
    ensures -128 <= x <= 127 ==> r == x
    ensures (r - x) % 0x100 == 0
  {
    var m := x % 0x100;
    if m > 127 then m - 0x100 else m
  }

  // Bitwise AND and OR of non-negative integers, bit by bit from the
  // least significant end.

  function BitAnd(x: nat, y: nat): nat {
    if x == 0 || y == 0 then 0
    else 2 * BitAnd(x / 2, y / 2) + (if x % 2 == 1 && y % 2 == 1 then 1 else 0)
  }

  function BitOr(x: nat, y: nat): nat {
    if x == 0 then y
    else if y == 0 then x
    else 2 * BitOr(x / 2, y / 2) + (if x % 2 == 1 || y % 2 == 1 then 1 else 0)
  }
}
