/** Q28.4 fixed-point numbers (ch.epfl.javelo.Q28_4): a Java int read with
    28 bits before and 4 bits after the binary point. */
module Q28_4 {
  import opened Bits

  const BITS_AFTER_POINT: nat := 4

  /** ofInt: i << 4, which wraps around for |i| >= 2^27. */
  function OfInt(i: Int32): (r: Int32)
    ensures r == Wrap(16 * i)
  {
    ShiftLeftWraps(i, BITS_AFTER_POINT);
    Pow2Values();
    ShiftLeft(i, BITS_AFTER_POINT)
  }

  /** asDouble: the value q / 2^4 (Math.scalb is exact on reals). */
  function AsDouble(q: Int32): (r: real)
    ensures r * 16.0 == q as real
  {
    q as real / 16.0
  }

  /** asFloat: the same value; float rounding is not modelled. */
  function AsFloat(q: Int32): (r: real)
    ensures r * 16.0 == q as real
  {
    AsDouble(q)
  }

  /** ofInt is multiplication by 16 modulo 2^32, and exact when the result fits. */
  lemma OfIntScales(i: Int32)
    ensures (OfInt(i) - 16 * i) % TWO32 == 0
    ensures -0x800_0000 <= i < 0x800_0000 ==> OfInt(i) == 16 * i
  {
    if -0x800_0000 <= i < 0x800_0000 {
      WrapInRange(16 * i);
    }
  }

  /** Converting an int to Q28.4 and reading it back gives the int, when no
      wrap-around occurs. */
  lemma AsDoubleOfInt(i: Int32)
    requires -0x800_0000 <= i < 0x800_0000
    ensures AsDouble(OfInt(i)) == i as real
  {
    OfIntScales(i);
  }

  /** Reading Q28.4 values preserves their order. */
  lemma AsDoubleMonotone(q: Int32, q': Int32)
    ensures q < q' <==> AsDouble(q) < AsDouble(q')
  {
  }
}
