/** Bit-field extraction from 32-bit words (ch.epfl.javelo.Bits).
    A Java `int` is an Int32; shifts are modelled on its two's-complement
    encoding: `<<` multiplies the unsigned encoding by a power of two modulo 2^32,
    `>>>` divides the unsigned encoding and `>>` divides the signed value
    rounding towards minus infinity (Dafny's `/` with a positive divisor). */
module Bits {
  import opened Wrappers

  const TWO32: int := 0x1_0000_0000
  const TWO31: int := 0x8000_0000

  type Int32 = x: int | -0x8000_0000 <= x < 0x8000_0000

  function Pow2(k: nat): (r: nat)
    ensures r >= 1
  {
    if k == 0 then 1 else 2 * Pow2(k - 1)
  }

  lemma {:induction false} Pow2Add(a: nat, b: nat)
    ensures Pow2(a + b) == Pow2(a) * Pow2(b)
  {
    if a > 0 {
      Pow2Add(a - 1, b);
      assert Pow2(a + b) == 2 * Pow2(a - 1 + b);
    }
  }

  lemma Pow2Monotone(a: nat, b: nat)
    requires a <= b
    ensures Pow2(a) <= Pow2(b)
  {
    Pow2Add(a, b - a);
  }

  lemma Pow2Values()
    ensures Pow2(4) == 16 && Pow2(28) == 0x1000_0000
    ensures Pow2(31) == TWO31 && Pow2(32) == TWO32
  {
    assert Pow2(2) == 4;
    assert Pow2(4) == 16 by { Pow2Add(2, 2); }
    assert Pow2(8) == 256 by { Pow2Add(4, 4); }
    assert Pow2(16) == 0x1_0000 by { Pow2Add(8, 8); }
    assert Pow2(12) == 0x1000 by { Pow2Add(8, 4); }
    assert Pow2(28) == 0x1000_0000 by { Pow2Add(16, 12); }
    assert Pow2(30) == 0x4000_0000 by { Pow2Add(28, 2); }
    assert Pow2(31) == TWO31;
    assert Pow2(32) == TWO32;
  }

  /** The two's-complement encoding of a Java int, as an unsigned number. */
  function Unsigned(v: Int32): (u: nat)
    ensures u < TWO32
    ensures u % TWO32 == v % TWO32
  {
    if v < 0 then v + TWO32 else v
  }

  /** The Java int whose encoding is the 32-bit word w. */
  function Signed(w: int): (v: Int32)
    requires 0 <= w < TWO32
    ensures Unsigned(v) == w
  {
    if w >= TWO31 then w - TWO32 else w
  }

  /** Java int arithmetic wraps modulo 2^32. */
  function Wrap(x: int): (v: Int32)
    ensures (v - x) % TWO32 == 0
  {
    Signed(x % TWO32)
  }

  /** value << k for a shift distance 0 <= k < 32. */
  function ShiftLeft(value: Int32, k: int): Int32
    requires 0 <= k < 32
  {
    Signed((Unsigned(value) * Pow2(k)) % TWO32)
  }

  /** value >>> k (logical shift) for 0 <= k < 32. */
  function UnsignedShiftRight(value: Int32, k: int): Int32
    requires 0 <= k < 32
  {
    DivNonNegative(Unsigned(value), Pow2(k));
    Signed(Unsigned(value) / Pow2(k))
  }

  /** value >> k (arithmetic shift) for 0 <= k < 32. */
  function ShiftRight(value: Int32, k: int): Int32
    requires 0 <= k < 32
  {
    DivBounds(value, Pow2(k));
    value / Pow2(k)
  }

  lemma DivNonNegative(u: int, d: int)
    requires 0 <= u && d >= 1
    ensures 0 <= u / d <= u
  {
    var q, r := u / d, u % d;
    assert u == q * d + r && 0 <= r < d;
    MulAtLeast(q, d);
  }

  /** Division by d >= 1 keeps an int32 value within int32 range. */
  lemma DivBounds(v: int, d: int)
    requires -TWO31 <= v < TWO31 && d >= 1
    ensures -TWO31 <= v / d < TWO31
  {
    if v >= 0 {
      DivNonNegative(v, d);
    } else {
      var q, r := v / d, v % d;
      assert v == q * d + r && 0 <= r < d;
      assert q + 1 <= 0;
      MulAtLeast(-(q + 1), d);
      assert (q + 1) * d == -((-(q + 1)) * d);
      assert (q + 1) * d == q * d + d;
    }
  }

  lemma MulAtLeast(q: int, d: int)
    requires q >= 0 && d >= 1
    ensures q * d >= q
  {
    assert q * d - q == q * (d - 1);
    assert q * (d - 1) >= 0;
  }

  /** value << k is value * 2^k wrapped to 32 bits. */
  lemma ShiftLeftWraps(value: Int32, k: int)
    requires 0 <= k < 32
    ensures ShiftLeft(value, k) == Wrap(value * Pow2(k))
  {
    var p := Pow2(k);
    var x := value * p;
    if value < 0 {
      assert Unsigned(value) * p == x + p * TWO32;
      ModAddMultiple(x, p, TWO32);
    }
  }

  /** Wrapping is the identity on values that fit in an int. */
  lemma WrapInRange(x: int)
    requires -TWO31 <= x < TWO31
    ensures Wrap(x) == x
  {
    if x < 0 {
      DivModUnique(x, TWO32, -1, x + TWO32);
    }
  }

  lemma ModAddMultiple(x: int, c: int, d: int)
    requires d >= 1
    ensures (x + c * d) % d == x % d
  {
    var q, r := x / d, x % d;
    assert x + c * d == (q + c) * d + r;
    DivModUnique(x + c * d, d, q + c, r);
  }

  /** The range test of extractSigned, with `end = start + length` computed in
      wrapping int arithmetic as Java does. */
  predicate SignedRangeOk(start: Int32, length: Int32)
  {
    var end := Wrap(start + length);
    start >= 0 && start < 32 && end <= 32 && end >= 0 && length > 0
  }

  /** The range test of extractUnsigned. */
  predicate UnsignedRangeOk(start: Int32, length: Int32)
  {
    var end := Wrap(start + length);
    start < 32 && start >= 0 && end <= 32 && length > 0 && length < 32
  }

  /** extractSigned: the length-bit field at `start`, read as a two's-complement
      number; None stands for the IllegalArgumentException of a bad range. */
  function ExtractSigned(value: Int32, start: Int32, length: Int32): (r: Option<Int32>)
    ensures r.Some? <==> 0 <= start && 0 < length && start + length <= 32
  {
    SignedRangeOkIff(start, length);
    if SignedRangeOk(start, length) then
      var end := Wrap(start + length);
      Some(ShiftRight(ShiftLeft(value, 32 - end), 32 - length))
    else
      None
  }

  /** extractUnsigned: the length-bit field at `start` read as an unsigned number;
      length 32 is refused as well. */
  function ExtractUnsigned(value: Int32, start: Int32, length: Int32): (r: Option<Int32>)
    ensures r.Some? <==> 0 <= start && 0 < length < 32 && start + length <= 32
  {
    UnsignedRangeOkIff(start, length);
    if UnsignedRangeOk(start, length) then
      var end := Wrap(start + length);
      Some(UnsignedShiftRight(ShiftLeft(value, 32 - end), 32 - length))
    else
      None
  }

  lemma SignedRangeOkIff(start: Int32, length: Int32)
    ensures SignedRangeOk(start, length) <==> 0 <= start && 0 < length && start + length <= 32
  {
    var s := start + length;
    if 0 <= start < 32 && length > 0 {
      if s < TWO31 {
        assert s % TWO32 == s;
        assert Wrap(s) == s;
      } else {
        assert s % TWO32 == s;
        assert Wrap(s) == s - TWO32 < 0;
      }
    }
  }

  lemma UnsignedRangeOkIff(start: Int32, length: Int32)
    ensures UnsignedRangeOk(start, length) <==> 0 <= start && 0 < length < 32 && start + length <= 32
  {
    var s := start + length;
    if 0 <= start < 32 && 0 < length < 32 {
      assert s % TWO32 == s;
      assert Wrap(s) == s;
    }
  }

  /** The reference meaning of a bit field: bits start .. start + length - 1 of the
      word's encoding, as an unsigned number. */
  function Field(value: Int32, start: nat, length: nat): nat
  {
    (Unsigned(value) / Pow2(start)) % Pow2(length)
  }

  /** Two's-complement reading of a length-bit unsigned number. */
  function SignExtend(f: int, length: nat): int
    requires length > 0
  {
    if f >= Pow2(length - 1) then f - Pow2(length) else f
  }

  /** Within the valid range, extractUnsigned yields exactly the field. */
  lemma ExtractUnsignedIsField(value: Int32, start: Int32, length: Int32)
    requires 0 <= start && 0 < length < 32 && start + length <= 32
    ensures ExtractUnsigned(value, start, length) == Some(Field(value, start, length))
  {
    var w := ShiftedWord(value, start, length);
    var F := Field(value, start, length);
    assert w / Pow2(32 - length) == F;
    Pow2Monotone(length, 31);
    Pow2Values();
    assert F < TWO31;
  }

  /** Within the valid range, extractSigned yields the field read in two's
      complement. */
  lemma ExtractSignedIsSignExtended(value: Int32, start: Int32, length: Int32)
    requires 0 <= start && 0 < length && start + length <= 32
    ensures ExtractSigned(value, start, length) == Some(SignExtend(Field(value, start, length), length))
  {
    var w := ShiftedWord(value, start, length);
    var b := 32 - length;
    var D, K, L := Pow2(b), Pow2(length - 1), Pow2(length);
    Pow2Add(length - 1, b);
    Pow2Add(length, b);
    Pow2Values();
    SignedDivide(w, D, K, L);
    assert w / D == Field(value, start, length);
  }

  /** An unsigned extraction lies in [0, 2^length). */
  lemma ExtractUnsignedRange(value: Int32, start: Int32, length: Int32)
    requires ExtractUnsigned(value, start, length).Some?
    ensures 0 <= ExtractUnsigned(value, start, length).value < Pow2(length)
  {
    ExtractUnsignedIsField(value, start, length);
  }

  /** A signed extraction lies in [-2^(length-1), 2^(length-1)). */
  lemma ExtractSignedRange(value: Int32, start: Int32, length: Int32)
    requires 0 <= start && 0 < length && start + length <= 32
    ensures -(Pow2(length - 1) as int) <= ExtractSigned(value, start, length).value < Pow2(length - 1)
  {
    ExtractSignedIsSignExtended(value, start, length);
  }

  /** On a range both accept, the two extractions agree unless the field's top
      bit is set, in which case the signed one is 2^length smaller. */
  lemma SignedUnsignedAgree(value: Int32, start: Int32, length: Int32)
    requires ExtractUnsigned(value, start, length).Some?
    ensures var s, u := ExtractSigned(value, start, length).value, ExtractUnsigned(value, start, length).value;
      (s == u <==> u < Pow2(length - 1)) && (s != u ==> s == u - Pow2(length))
  {
    ExtractUnsignedIsField(value, start, length);
    ExtractSignedIsSignExtended(value, start, length);
  }

  /** Extracting all 32 bits as a signed field gives the value back. */
  lemma ExtractSignedFullWord(value: Int32)
    ensures ExtractSigned(value, 0, 32) == Some(value)
  {
    ExtractSignedIsSignExtended(value, 0, 32);
    Pow2Values();
    assert Field(value, 0, 32) == Unsigned(value);
  }

  /** The word value << (32 - end) of both extractions, as an encoding: the
      field's bits moved to the top of the word, the bits below them cleared;
      shifting it right by 32 - length leaves the field. */
  lemma ShiftedWord(value: Int32, start: Int32, length: Int32) returns (w: int)
    requires 0 <= start && 0 < length && start + length <= 32
    ensures Wrap(start + length) == start + length
    ensures 0 <= w < TWO32
    ensures ShiftLeft(value, 32 - (start + length)) == Signed(w)
    ensures w / Pow2(32 - length) == Field(value, start, length)
  {
    assert (start + length) % TWO32 == start + length;
    var P, L, A := Pow2(start), Pow2(length), Pow2(32 - (start + length));
    Pow2Add(start, length);
    Pow2Add(start + length, 32 - (start + length));
    Pow2Add(32 - (start + length), start);
    Pow2Values();
    assert P * L * A == TWO32;
    assert Pow2(32 - length) == A * P;
    w := ShiftThenDivide(Unsigned(value), P, L, A);
  }

  /** Multiplying u by A modulo P*L*A keeps u's low P*L part, scaled by A;
      dividing that by A*P leaves the digit of u in base P selected by L. */
  lemma ShiftThenDivide(u: int, p: int, l: int, a: int) returns (w: int)
    requires u >= 0 && p >= 1 && l >= 1 && a >= 1
    ensures w == (u * a) % (p * l * a)
    ensures 0 <= w < p * l * a
    ensures w / (a * p) == (u / p) % l
  {
    var pl := p * l;
    MulAtLeast(p, l);
    var h, m := u / pl, u % pl;
    assert u == h * pl + m;
    MulStrict(m, pl, a);
    w := m * a;
    assert u * a == h * (pl * a) + w by {
      assert u * a == (h * pl + m) * a;
    }
    MulAtLeast(pl, a);
    DivModUnique(u * a, pl * a, h, w);
    DivCancel(m, p, a);
    ModDiv(u, p, l);
  }

  /** Arithmetic right shift of a 32-bit word w whose top bit is at K * D, in
      terms of its unsigned quotient by D. */
  lemma SignedDivide(w: int, d: int, k: int, l: int)
    requires d >= 1 && l == 2 * k && k * d == TWO31 && l * d == TWO32 && 0 <= w < TWO32
    ensures Signed(w) / d == if w / d >= k then w / d - l else w / d
  {
    DivLtIff(w, d, k);
    if w >= TWO31 {
      assert Signed(w) == w - l * d;
      DivSubMultiple(w, l, d);
    }
  }

  lemma DivModUnique(x: int, d: int, q: int, r: int)
    requires d >= 1 && 0 <= r < d && x == q * d + r
    ensures x / d == q && x % d == r
  {
    var q', r' := x / d, x % d;
    assert x == q' * d + r' && 0 <= r' < d;
    var e := q - q';
    assert e * d == r' - r;
    if e >= 1 {
      MulLe(1, e, d);
    } else if e <= -1 {
      MulLe(1, -e, d);
    }
  }

  lemma MulStrict(r: int, p: int, a: int)
    requires 0 <= r < p && a >= 1
    ensures 0 <= r * a < p * a
  {
    MulAtLeast(p - r, a);
    assert p * a - r * a == (p - r) * a;
    assert r * a >= 0;
  }

  /** (m * A) / (P * A) == m / P. */
  lemma DivCancel(m: int, p: int, a: int)
    requires m >= 0 && p >= 1 && a >= 1
    ensures (m * a) / (a * p) == m / p
  {
    var q, r := m / p, m % p;
    MulStrict(r, p, a);
    assert m * a == q * (a * p) + r * a by {
      assert m == q * p + r;
    }
    MulAtLeast(p, a);
    DivModUnique(m * a, a * p, q, r * a);
  }

  /** (u mod P*L) / P == (u / P) mod L. */
  lemma ModDiv(u: int, p: int, l: int)
    requires u >= 0 && p >= 1 && l >= 1
    ensures (u % (p * l)) / p == (u / p) % l
  {
    var q1, r1 := u / p, u % p;
    var q2, r2 := q1 / l, q1 % l;
    assert u == q1 * p + r1;
    assert q1 == q2 * l + r2;
    assert u == q2 * (p * l) + (r2 * p + r1) by {
      assert q1 * p == q2 * (l * p) + r2 * p;
    }
    assert r2 * p + r1 < p * l by {
      MulLe(r2 + 1, l, p);
      assert (r2 + 1) * p == r2 * p + p;
    }
    MulAtLeast(l, p);
    DivModUnique(u, p * l, q2, r2 * p + r1);
    DivModUnique(r2 * p + r1, p, r2, r1);
  }

  lemma MulLe(x: int, y: int, p: int)
    requires x <= y && p >= 0
    ensures x * p <= y * p
  {
    assert y * p - x * p == (y - x) * p;
    assert (y - x) * p >= 0;
  }

  /** For x >= 0: x < K * D <==> x / D < K. */
  lemma DivLtIff(x: int, d: int, k: int)
    requires x >= 0 && d >= 1
    ensures x < k * d <==> x / d < k
  {
    var q, r := x / d, x % d;
    assert x == q * d + r && 0 <= r < d;
    if q < k {
      MulLe(q + 1, k, d);
      assert (q + 1) * d == q * d + d;
    } else {
      MulLe(k, q, d);
    }
  }

  /** (w - L * D) / D == w / D - L. */
  lemma DivSubMultiple(w: int, l: int, d: int)
    requires d >= 1
    ensures (w - l * d) / d == w / d - l
  {
    var q, r := w / d, w % d;
    assert w - l * d == (q - l) * d + r;
    DivModUnique(w - l * d, d, q - l, r);
  }
}
