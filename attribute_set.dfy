/** Sets of OpenStreetMap attributes as 64-bit masks
    (ch.epfl.javelo.data.AttributeSet): bit b of the long is set iff the
    attribute of ordinal b belongs to the set. The long is an int, its bits its
    binary digits, and the bitwise operators are defined digit by digit. */
module AttributeSet {
  import opened Wrappers
  import opened Bits

  /** Attribute.COUNT: the number of attributes of the enumeration. */
  const COUNT: nat := 62

  /** An attribute, by its ordinal; its OSM key=value text is a parameter of
      ToString, since the enumeration itself is not part of this model. */
  type Attribute = i: nat | i < COUNT

  datatype Mask = AttributeSet(bits: int)

  /** The compact constructor's test: bits >> COUNT == 0, the arithmetic shift
      of a long being a division rounding towards minus infinity. */
  predicate ValidBits(bits: int)
  {
    bits / LIMIT == 0
  }

  /** 2^COUNT, written out. */
  const LIMIT: nat := 0x4000_0000_0000_0000

  lemma LimitIsPow2()
    ensures Pow2(COUNT) == LIMIT
  {
    assert Pow2(2) == 4;
    Pow2Add(2, 2);
    assert Pow2(4) == 0x10;
    Pow2Add(4, 4);
    assert Pow2(8) == 0x100;
    Pow2Add(8, 8);
    assert Pow2(16) == 0x1_0000;
    Pow2Add(16, 16);
    assert Pow2(32) == 0x1_0000_0000;
    Pow2Add(32, 16);
    assert Pow2(48) == 0x1_0000_0000_0000;
    Pow2Add(48, 8);
    assert Pow2(56) == 0x100_0000_0000_0000;
    Pow2Add(56, 4);
    assert Pow2(60) == 0x1000_0000_0000_0000;
    Pow2Add(60, 2);
  }

  /** Every AttributeSet value passed the compact constructor's check. */
  type AttributeSet = s: Mask | ValidBits(s.bits) witness AttributeSet(0)

  /** Bit i of a non-negative number: its i-th binary digit. */
  predicate HasBit(x: nat, i: nat)
  {
    if i == 0 then x % 2 == 1 else HasBit(x / 2, i - 1)
  }

  /** x & y on non-negative numbers. */
  function And(x: nat, y: nat): nat
    decreases x
  {
    if x == 0 || y == 0 then 0 else 2 * And(x / 2, y / 2) + (if x % 2 == 1 && y % 2 == 1 then 1 else 0)
  }

  /** x | y on non-negative numbers. */
  function Or(x: nat, y: nat): nat
    decreases x + y
  {
    if x == 0 then y
    else if y == 0 then x
    else 2 * Or(x / 2, y / 2) + (if x % 2 == 1 || y % 2 == 1 then 1 else 0)
  }

  /** The test accepts exactly the masks with no bit at COUNT or above:
      0 <= bits < 2^COUNT, which rejects every negative long. */
  lemma ValidBitsIff(bits: int)
    ensures ValidBits(bits) <==> 0 <= bits < Pow2(COUNT)
  {
    var p := Pow2(COUNT);
    LimitIsPow2();
    if 0 <= bits < p {
      DivModUnique(bits, p, 0, bits);
    } else {
      assert bits == (bits / p) * p + bits % p;
    }
  }

  /** contains: (1L << ordinal) & bits != 0; the shift cannot overflow since
      ordinals are below 62. */
  predicate Contains(s: AttributeSet, a: Attribute)
  {
    And(Pow2(a), s.bits) != 0
  }

  /** intersects: the masks share a set bit. */
  predicate Intersects(s: AttributeSet, t: AttributeSet)
  {
    And(s.bits, t.bits) != 0
  }

  /** of: the set of exactly the given attributes, built by OR-ing their bits. */
  method Of(attributes: seq<Attribute>) returns (s: AttributeSet)
    ensures forall a: Attribute :: Contains(s, a) <==> a in attributes
  {
    var temp: nat := 0;
    forall a: Attribute
      ensures !HasBit(0, a)
    {
      ZeroNoBit(a);
    }
    for k := 0 to |attributes|
      invariant temp < Pow2(COUNT)
      invariant forall a: Attribute :: HasBit(temp, a) <==> a in attributes[..k]
    {
      var b := attributes[k];
      Pow2Monotone(b as nat + 1, COUNT);
      OrBound(temp, Pow2(b), COUNT);
      forall a: Attribute
        ensures HasBit(Or(temp, Pow2(b)), a) <==> HasBit(temp, a) || a == b
      {
        OrBit(temp, Pow2(b), a);
        Pow2Bit(b, a);
      }
      temp := Or(temp, Pow2(b));
      assert attributes[..k + 1] == attributes[..k] + [b];
    }
    assert attributes[..|attributes|] == attributes;
    ValidBitsIff(temp);
    s := AttributeSet(temp);
    forall a: Attribute
      ensures Contains(s, a) <==> a in attributes
    {
      ContainsIff(s, a);
    }
  }

  /** contains(a) holds exactly when bit a of the mask is set. */
  lemma ContainsIff(s: AttributeSet, a: Attribute)
    ensures Contains(s, a) <==> HasBit(s.bits, a)
  {
    var x := And(Pow2(a), s.bits);
    AndBit(Pow2(a), s.bits, a);
    Pow2Bit(a, a);
    if x != 0 {
      var i := SomeBit(x);
      AndBit(Pow2(a), s.bits, i);
      Pow2Bit(a, i);
    } else {
      ZeroNoBit(a);
    }
  }

  /** intersects holds iff some attribute belongs to both sets; in particular it
      is symmetric. */
  lemma IntersectsIff(s: AttributeSet, t: AttributeSet)
    ensures Intersects(s, t) <==> exists a: Attribute :: Contains(s, a) && Contains(t, a)
    ensures Intersects(s, t) == Intersects(t, s)
  {
    var x := And(s.bits, t.bits);
    ValidBitsIff(s.bits);
    if x != 0 {
      var i := SomeBit(x);
      AndBit(s.bits, t.bits, i);
      BitBelow(s.bits, COUNT, i);
      ContainsIff(s, i);
      ContainsIff(t, i);
    }
    forall a: Attribute | Contains(s, a) && Contains(t, a)
      ensures x != 0
    {
      ContainsIff(s, a);
      ContainsIff(t, a);
      AndBit(s.bits, t.bits, a);
      ZeroNoBit(a);
    }
    AndSymmetric(s.bits, t.bits);
  }

  /** Sets with the same members are equal: an AttributeSet is determined by the
      attributes it contains. */
  lemma Extensionality(s: AttributeSet, t: AttributeSet)
    requires forall a: Attribute :: Contains(s, a) <==> Contains(t, a)
    ensures s == t
  {
    ValidBitsIff(s.bits);
    ValidBitsIff(t.bits);
    forall i: nat | i < COUNT
      ensures HasBit(s.bits, i) == HasBit(t.bits, i)
    {
      ContainsIff(s, i);
      ContainsIff(t, i);
    }
    BitsDetermine(s.bits, t.bits, COUNT);
  }

  /** A set containing no attribute is the empty mask, of() with no argument,
      and intersects no set. */
  lemma EmptyIntersectsNothing(s: AttributeSet, t: AttributeSet)
    requires forall a: Attribute :: !Contains(s, a)
    ensures s.bits == 0 && !Intersects(s, t)
  {
    ValidBitsIff(0);
    forall a: Attribute
      ensures !Contains(AttributeSet(0), a)
    {
    }
    Extensionality(s, AttributeSet(0));
  }

  lemma {:induction false} ZeroNoBit(i: nat)
    ensures !HasBit(0, i)
  {
    if i > 0 {
      ZeroNoBit(i - 1);
    }
  }

  lemma {:induction false} AndBit(x: nat, y: nat, i: nat)
    ensures HasBit(And(x, y), i) <==> HasBit(x, i) && HasBit(y, i)
    decreases x
  {
    if x == 0 || y == 0 {
      ZeroNoBit(i);
    } else if i > 0 {
      AndBit(x / 2, y / 2, i - 1);
    }
  }

  lemma {:induction false} OrBit(x: nat, y: nat, i: nat)
    ensures HasBit(Or(x, y), i) <==> HasBit(x, i) || HasBit(y, i)
    decreases x + y
  {
    if x == 0 {
      ZeroNoBit(i);
    } else if y == 0 {
      ZeroNoBit(i);
    } else if i > 0 {
      OrBit(x / 2, y / 2, i - 1);
    }
  }

  lemma {:induction false} AndSymmetric(x: nat, y: nat)
    ensures And(x, y) == And(y, x)
    decreases x
  {
    if x != 0 && y != 0 {
      AndSymmetric(x / 2, y / 2);
    }
  }

  /** The only bit of 2^a is bit a. */
  lemma {:induction false} Pow2Bit(a: nat, i: nat)
    ensures HasBit(Pow2(a), i) <==> i == a
  {
    if a == 0 {
      if i > 0 {
        ZeroNoBit(i - 1);
      }
    } else if i > 0 {
      Pow2Bit(a - 1, i - 1);
    }
  }

  /** A number below 2^k has no bit at k or above. */
  lemma {:induction false} BitBelow(x: nat, k: nat, i: nat)
    requires x < Pow2(k) && HasBit(x, i)
    ensures i < k
  {
    if i > 0 {
      if k == 0 {
        ZeroNoBit(i - 1);
      } else {
        BitBelow(x / 2, k - 1, i - 1);
      }
    }
  }

  /** A positive number has a set bit. */
  lemma {:induction false} SomeBit(x: nat) returns (i: nat)
    requires x > 0
    ensures HasBit(x, i)
  {
    if x % 2 == 1 {
      i := 0;
    } else {
      i := SomeBit(x / 2);
      i := i + 1;
    }
  }

  /** Two numbers below 2^k with the same bits below k are equal. */
  lemma {:induction false} BitsDetermine(x: nat, y: nat, k: nat)
    requires x < Pow2(k) && y < Pow2(k)
    requires forall i: nat | i < k :: HasBit(x, i) == HasBit(y, i)
    ensures x == y
  {
    if k > 0 {
      assert HasBit(x, 0) == HasBit(y, 0);
      forall i: nat | i < k - 1
        ensures HasBit(x / 2, i) == HasBit(y / 2, i)
      {
        assert HasBit(x, i + 1) == HasBit(y, i + 1);
      }
      BitsDetermine(x / 2, y / 2, k - 1);
    }
  }

  /** OR-ing two numbers below 2^k stays below 2^k. */
  lemma {:induction false} OrBound(x: nat, y: nat, k: nat)
    requires x < Pow2(k) && y < Pow2(k)
    ensures Or(x, y) < Pow2(k)
    decreases x + y
  {
    if x != 0 && y != 0 {
      OrBound(x / 2, y / 2, k - 1);
    }
  }

  /** The ordinals below k contained in s, in increasing order. */
  function Members(s: AttributeSet, k: nat): seq<Attribute>
    requires k <= COUNT
  {
    if k == 0 then []
    else Members(s, k - 1) + (if Contains(s, k - 1) then [k - 1] else [])
  }

  /** Members lists exactly the contained attributes below k, strictly
      increasing. */
  lemma {:induction false} MembersExact(s: AttributeSet, k: nat)
    requires k <= COUNT
    ensures forall a: Attribute :: a in Members(s, k) <==> a < k && Contains(s, a)
    ensures forall i, j :: 0 <= i < j < |Members(s, k)| ==> Members(s, k)[i] < Members(s, k)[j]
    ensures forall i :: 0 <= i < |Members(s, k)| ==> Members(s, k)[i] < k
  {
    if k > 0 {
      MembersExact(s, k - 1);
    }
  }

  /** The key=value texts of the given attributes, in order. */
  function Names(attributes: seq<Attribute>, keyValue: Attribute -> string): (r: seq<string>)
    ensures |r| == |attributes|
    ensures forall i :: 0 <= i < |r| ==> r[i] == keyValue(attributes[i])
  {
    seq(|attributes|, i requires 0 <= i < |attributes| => keyValue(attributes[i]))
  }

  /** A StringJoiner's content: the parts separated by the delimiter. */
  function Join(parts: seq<string>, delimiter: string): string
  {
    if |parts| == 0 then ""
    else if |parts| == 1 then parts[0]
    else parts[0] + delimiter + Join(parts[1..], delimiter)
  }

  /** toString: the contained attributes' texts in ordinal order, separated by
      commas, between braces. */
  method ToString(s: AttributeSet, keyValue: Attribute -> string) returns (r: string)
    ensures r == "{" + Join(Names(Members(s, COUNT), keyValue), ",") + "}"
  {
    var parts: seq<string> := [];
    for i := 0 to COUNT
      invariant parts == Names(Members(s, i), keyValue)
    {
      if Contains(s, i) {
        assert Members(s, i + 1) == Members(s, i) + [i];
        parts := parts + [keyValue(i)];
      } else {
        assert Members(s, i + 1) == Members(s, i);
      }
    }
    r := "{" + Join(parts, ",") + "}";
  }

  /** The empty set prints as "{}". */
  lemma EmptyToString(s: AttributeSet, keyValue: Attribute -> string)
    requires forall a: Attribute :: !Contains(s, a)
    ensures "{" + Join(Names(Members(s, COUNT), keyValue), ",") + "}" == "{}"
  {
    NoMembers(s, COUNT);
  }

  lemma {:induction false} NoMembers(s: AttributeSet, k: nat)
    requires k <= COUNT && forall a: Attribute :: !Contains(s, a)
    ensures Members(s, k) == []
  {
    if k > 0 {
      NoMembers(s, k - 1);
    }
  }

  lemma {:induction false} OneMember(s: AttributeSet, b: Attribute, k: nat)
    requires k <= COUNT && forall a: Attribute :: Contains(s, a) <==> a == b
    ensures Members(s, k) == if b < k then [b] else []
  {
    if k > 0 {
      OneMember(s, b, k - 1);
    }
  }

  /** A singleton prints as its one attribute's text between braces. */
  lemma SingletonToString(s: AttributeSet, b: Attribute, keyValue: Attribute -> string)
    requires forall a: Attribute :: Contains(s, a) <==> a == b
    ensures "{" + Join(Names(Members(s, COUNT), keyValue), ",") + "}" == "{" + keyValue(b) + "}"
  {
    OneMember(s, b, COUNT);
  }
}
