/** The 32-bit signed integers of C# `int`, and the unchecked wrap-around of its arithmetic. */
module Int32 {

  const Modulus: int := 0x1_0000_0000

  newtype int32 = x: int | -0x8000_0000 <= x < 0x8000_0000

  predicate InRange(x: int) {
    -0x8000_0000 <= x < 0x8000_0000
  }

  /** The value an unchecked C# `int` operation leaves when the exact result is `x`. */
  function Wrap(x: int): (r: int32)
    ensures (r as int - x) % Modulus == 0
    ensures InRange(x) ==> r as int == x
    ensures InRange(x - Modulus) ==> r as int == x - Modulus
  {
    var shifted := x + 0x8000_0000;
    assert 0 <= shifted < Modulus ==> shifted % Modulus == shifted;
    assert Modulus <= shifted < 2 * Modulus ==> shifted % Modulus == shifted - Modulus;
    (shifted % Modulus - 0x8000_0000) as int32
  }
}
