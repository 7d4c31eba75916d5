/// The C# integer types and operators the solutions rely on: unchecked
/// 32-bit and 8-bit wrap-around, and division and remainder that truncate
/// toward zero.
module CSharpInts {

  const Modulus32: int := 0x1_0000_0000

  /// A C# `int`.
  type Int32 = x: int | -0x8000_0000 <= x < 0x8000_0000

  /// A C# `sbyte`.
  type SByte = x: int | -128 <= x < 128

  /// A C# `byte`.
  type Byte = x: int | 0 <= x < 256

  predicate IsInt32(x: int) { -0x8000_0000 <= x < 0x8000_0000 }

  /// Unchecked C# arithmetic: the exact value reduced modulo 2^32 and read
  /// back as a signed 32-bit number.
  function Wrap32(x: int): (r: Int32)
    ensures (x - r) % Modulus32 == 0
    ensures -0x8000_0000 <= x < 0x8000_0000 ==> r == x
  {
    var m := x % Modulus32;
    if m < 0x8000_0000 then m else m - Modulus32
  }

  /// The `(sbyte)` cast, and `sbyte` compound assignment: the exact value
  /// reduced modulo 256 and read back as a signed 8-bit number.
  function Wrap8(x: int): (r: SByte)
    ensures (x - r) % 256 == 0
    ensures -128 <= x < 128 ==> r == x
  {
    var m := x % 256;
    if m < 128 then m else m - 256
  }

  /// Adding a multiple of 256 does not change the wrapped `sbyte`.
  lemma Wrap8Shift(x: int, k: int)
    ensures Wrap8(x + 256 * k) == Wrap8(x)
  {
    var a := Wrap8Offset(x + 256 * k);
    var b := Wrap8Offset(x);
    var m := b + k - a;
    assert Wrap8(x + 256 * k) - Wrap8(x) == 256 * m;
  }

  /// The multiple of 256 that `Wrap8` takes off.
  lemma Wrap8Offset(x: int) returns (k: int)
    ensures x == Wrap8(x) + 256 * k
  {
    k := x / 256 - (if x % 256 < 128 then 0 else -1);
  }

  function Abs(a: int): nat { if a < 0 then -a else a }

  /// C#'s `/`: the quotient rounded toward zero.
  function Quot(a: int, b: int): (q: int)
    requires b != 0
    ensures a >= 0 && b > 0 ==> q == a / b
  {
    var m := Abs(a) / Abs(b);
    if (a >= 0) == (b > 0) then m else -m
  }

  /// C#'s `%`: the remainder of `Quot`, carrying the dividend's sign.
  function Rem(a: int, b: int): (r: int)
    requires b != 0
    ensures a >= 0 && b > 0 ==> r == a % b
    ensures a >= 0 ==> 0 <= r < Abs(b)
    ensures a < 0 ==> 0 <= -r < Abs(b)
  {
    var m := Abs(a) % Abs(b);
    if a >= 0 then m else -m
  }
}
