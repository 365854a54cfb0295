/** Java's primitive integer types and the two operators whose Java meaning differs
    from Dafny's: the wrap-around of `int` arithmetic and the truncating `%`. */
module JavaInt {

  const TwoTo32: int := 0x1_0000_0000

  /** A Java `int`: a 32-bit two's-complement value. */
  type int32 = x: int | -0x8000_0000 <= x < 0x8000_0000

  /** A Java `byte`, stored as its 8-bit pattern (0..255); `SignedByte` gives the value Java sees. */
  type byte = x: int | 0 <= x < 0x100

  /** The value of an `int` expression whose mathematical result is `x`: Java keeps the low 32 bits. */
  function Wrap32(x: int): (r: int32)
    ensures (r - x) % TwoTo32 == 0
    ensures -0x8000_0000 <= x < 0x8000_0000 ==> r == x
  {
    var low := x % TwoTo32;
    if low < 0x8000_0000 then low else low - TwoTo32
  }

  /** Java's `a % b` for `b > 0`: the remainder takes the sign of `a` (truncating division),
      and `a - r` is a multiple of `b`. */
  function JavaRem(a: int, b: int): (r: int)
    requires b > 0
    ensures -b < r < b
    ensures (a - r) % b == 0
    ensures a >= 0 ==> r == a % b
    ensures a < 0 ==> r <= 0
  {
    if a >= 0 then
      Remainder(a, b);
      a % b
    else
      var c := -a;
      Remainder(c, b);
      assert a - -(c % b) == -(c - c % b);
      -(c % b)
  }

  /** `c - c % b` is a multiple of `b`, and so is its negation. */
  lemma Remainder(c: int, b: int)
    requires b > 0
    ensures (c - c % b) % b == 0 && (-(c - c % b)) % b == 0
  {
    var q := c / b;
    assert c - c % b == b * q;
    DivModUnique(b * q, b, q, 0);
    assert -(c - c % b) == b * -q;
    DivModUnique(b * -q, b, -q, 0);
  }

  /** `x & 0xFF` on an `int`: the low 8 bits of the two's-complement pattern. */
  function LowByte(x: int): (r: byte)
    ensures (x - r) % 0x100 == 0
  {
    x % 0x100
  }

  /** The value Java sees when it reads the byte whose pattern is `b`. */
  function SignedByte(b: byte): (r: int)
    ensures -0x80 <= r < 0x80
    ensures (r - b) % 0x100 == 0
  {
    if b < 0x80 then b else b - 0x100
  }

  /** The quotient and remainder of `w` by `a` are unique. */
  lemma DivModUnique(w: int, a: int, q: int, s: int)
    requires a > 0 && 0 <= s < a && w == a * q + s
    ensures w % a == s && w / a == q
  {
    var q', s' := w / a, w % a;
    var d := q - q';
    assert a * d == s' - s by { assert a * q == a * q' + a * d; }
    if d >= 1 {
      MulAtLeast(a, d);
    } else if d <= -1 {
      MulAtLeast(a, -d);
    }
  }

  /** A positive multiple of `a` is at least `a`. */
  lemma MulAtLeast(a: int, k: int)
    requires a > 0 && k >= 1
    ensures a * k >= a
  {
    assert a * k == a + a * (k - 1);
    assert a * (k - 1) >= 0;
  }
}

/** The stock optional value. */
module Wrappers {
  datatype Option<+T> = None | Some(value: T)
}
