/**
 GF(2^8) as src/gf256.c builds it: a shift-and-xor product, an inverse found by search, and
 the two lookup tables.  The product is multiplication of polynomials over GF(2) modulo
 x^8 + x^4 + x^3 + x^2 + 1, and with it the bytes are a field.
 */
module Gf256 {
  import opened Fields

  // Multiplication by x.
  function Double(a: bv8): bv8
  {
    (a << 1) ^ (if a & 0x80 != 0 then 0x1d else 0)
  }

  function Mul(a: bv8, b: bv8): bv8
    decreases b
  {
    if b == 0 then 0
    else (if b & 1 == 1 then a else 0) ^ Mul(Double(a), b >> 1)
  }

  // ---------------------------------------------------------------------------------------
  // Shift-and-add products in general.  Any addition and any doubling that respects it give
  // a product by a sequence of bits; its laws need nothing of bit vectors.

  datatype Doubling<!E> = Doubling(zero: E, add: (E, E) -> E, dbl: E -> E)
  {
    function Add(a: E, b: E): E { add(a, b) }
    function Dbl(a: E): E { dbl(a) }
    function Pick(bit: bool, a: E): E { if bit then a else zero }
  }

  ghost predicate DoublingLaws<E(!new)>(d: Doubling<E>)
  {
    forall a: E, b: E, c: E {:trigger At(a, b, c)} :: DoublingLawsAt(d, a, b, c)
  }

  ghost predicate DoublingLawsAt<E>(d: Doubling<E>, a: E, b: E, c: E)
  {
    && d.Add(d.Add(a, b), c) == d.Add(a, d.Add(b, c))
    && d.Add(a, b) == d.Add(b, a)
    && d.Add(d.zero, a) == a
    && d.Dbl(d.zero) == d.zero
    && d.Dbl(d.Add(a, b)) == d.Add(d.Dbl(a), d.Dbl(b))
  }

  function Product<E>(d: Doubling<E>, a: E, bits: seq<bool>): E
  {
    if bits == [] then d.zero
    else d.Add(d.Pick(bits[0], a), Product(d, d.Dbl(a), bits[1..]))
  }

  lemma Regroup<E(!new)>(d: Doubling<E>, p: E, q: E, r: E, s: E)
    requires DoublingLaws(d)
    ensures d.Add(d.Add(p, q), d.Add(r, s)) == d.Add(d.Add(p, r), d.Add(q, s))
  {
    assert At(p, q, d.Add(r, s));
    assert At(q, r, s);
    assert At(r, q, s);
    assert At(p, r, d.Add(q, s));
  }

  lemma {:induction false} ProductOfSum<E(!new)>(d: Doubling<E>, a: E, b: E, bits: seq<bool>)
    requires DoublingLaws(d)
    ensures Product(d, d.Add(a, b), bits) == d.Add(Product(d, a, bits), Product(d, b, bits))
    decreases |bits|
  {
    assert At(a, b, b);
    assert At(d.zero, d.zero, d.zero);
    if bits != [] {
      ProductOfSum(d, d.Dbl(a), d.Dbl(b), bits[1..]);
      Regroup(d, d.Pick(bits[0], a), d.Pick(bits[0], b),
              Product(d, d.Dbl(a), bits[1..]), Product(d, d.Dbl(b), bits[1..]));
    }
  }

  lemma {:induction false} ProductOfZero<E(!new)>(d: Doubling<E>, bits: seq<bool>)
    requires DoublingLaws(d)
    ensures Product(d, d.zero, bits) == d.zero
    decreases |bits|
  {
    assert At(d.zero, d.zero, d.zero);
    if bits != [] {
      ProductOfZero(d, bits[1..]);
    }
  }

  lemma {:induction false} ProductOfDouble<E(!new)>(d: Doubling<E>, a: E, bits: seq<bool>)
    requires DoublingLaws(d)
    ensures Product(d, d.Dbl(a), bits) == d.Dbl(Product(d, a, bits))
    decreases |bits|
  {
    assert At(d.zero, d.zero, d.zero);
    if bits != [] {
      ProductOfDouble(d, d.Dbl(a), bits[1..]);
      assert At(d.Pick(bits[0], a), Product(d, d.Dbl(a), bits[1..]), d.zero);
    }
  }

  // The order of two multiplications does not matter.  Commutativity and associativity of the
  // byte product are both instances.
  lemma {:induction false} ProductsCommute<E(!new)>(d: Doubling<E>, e: E, s: seq<bool>, t: seq<bool>)
    requires DoublingLaws(d)
    ensures Product(d, Product(d, e, s), t) == Product(d, Product(d, e, t), s)
    decreases |t|
  {
    if t == [] {
      ProductOfZero(d, s);
    } else {
      var rest := Product(d, d.Dbl(e), t[1..]);
      ProductOfDouble(d, e, s);
      ProductsCommute(d, d.Dbl(e), s, t[1..]);
      ProductOfSum(d, d.Pick(t[0], e), rest, s);
      ProductOfZero(d, s);
      assert d.Pick(t[0], Product(d, e, s)) == Product(d, d.Pick(t[0], e), s);
    }
  }

  // ---------------------------------------------------------------------------------------
  // The byte product.

  function Bytes(): Doubling<bv8>
  {
    Doubling(0, (a: bv8, b: bv8) => a ^ b, (a: bv8) => Double(a))
  }

  function Bits(b: bv8): seq<bool>
    decreases b
  {
    if b == 0 then [] else [b & 1 == 1] + Bits(b >> 1)
  }

  lemma DoubleOfSum(a: bv8, b: bv8)
    ensures Double(a ^ b) == Double(a) ^ Double(b)
  {
    assert (a ^ b) << 1 == (a << 1) ^ (b << 1);
    if a & 0x80 != 0 && b & 0x80 != 0 {
      assert (a ^ b) & 0x80 == 0;
    } else if a & 0x80 == 0 && b & 0x80 == 0 {
      assert (a ^ b) & 0x80 == 0;
    } else {
      assert (a ^ b) & 0x80 != 0;
    }
  }

  lemma XorLaws(a: bv8, b: bv8, c: bv8)
    ensures (a ^ b) ^ c == a ^ (b ^ c) && a ^ b == b ^ a && 0 ^ a == a && a ^ a == 0
  {
  }

  lemma BytesOps(a: bv8, b: bv8)
    ensures Bytes().Add(a, b) == a ^ b
    ensures Bytes().Dbl(a) == Double(a)
    ensures Bytes().zero == 0
  {
  }

  lemma BytesGroupLawsAt(a: bv8, b: bv8, c: bv8)
    ensures var d := Bytes();
      d.Add(d.Add(a, b), c) == d.Add(a, d.Add(b, c)) && d.Add(a, b) == d.Add(b, a) && d.Add(d.zero, a) == a
  {
    BytesOps(a, b);
    BytesOps(b, c);
    BytesOps(b, a);
    BytesOps(a ^ b, c);
    BytesOps(a, b ^ c);
    BytesOps(0, a);
    XorLaws(a, b, c);
  }

  lemma BytesLawsAt(a: bv8, b: bv8, c: bv8)
    ensures DoublingLawsAt(Bytes(), a, b, c)
  {
    BytesGroupLawsAt(a, b, c);
    BytesOps(a, b);
    BytesOps(b, a);
    BytesOps(0, 0);
    BytesOps(a ^ b, c);
    BytesOps(Double(a), Double(b));
    DoubleOfSum(a, b);
    assert Double(0) == 0;
  }

  lemma BytesLaws()
    ensures DoublingLaws(Bytes())
  {
    forall a: bv8, b: bv8, c: bv8
      ensures DoublingLawsAt(Bytes(), a, b, c)
    {
      BytesLawsAt(a, b, c);
    }
  }

  lemma {:induction false} MulIsProduct(a: bv8, b: bv8)
    ensures Mul(a, b) == Product(Bytes(), a, Bits(b))
    decreases b
  {
    if b != 0 {
      MulIsProduct(Double(a), b >> 1);
      assert Bits(b)[1..] == Bits(b >> 1);
    }
  }

  lemma MulOfDouble(a: bv8, b: bv8)
    ensures Mul(Double(a), b) == Double(Mul(a, b))
  {
    BytesLaws();
    MulIsProduct(a, b);
    MulIsProduct(Double(a), b);
    ProductOfDouble(Bytes(), a, Bits(b));
  }

  // A byte is its lowest bit plus twice the rest.
  lemma LowBitAndRest(a: bv8)
    ensures (if a & 1 == 1 then 1 else 0) ^ Double(a >> 1) == a
  {
    assert (a >> 1) & 0x80 == 0;
    assert (if a & 1 == 1 then 1 else 0) ^ ((a >> 1) << 1) == a;
  }

  lemma {:induction false} MulByOne(a: bv8)
    ensures Mul(1, a) == a
    decreases a
  {
    if a != 0 {
      MulByOne(a >> 1);
      MulOfDouble(1, a >> 1);
      LowBitAndRest(a);
    }
  }

  lemma MulComm(a: bv8, b: bv8)
    ensures Mul(a, b) == Mul(b, a)
  {
    BytesLaws();
    MulByOne(a);
    MulByOne(b);
    MulIsProduct(1, a);
    MulIsProduct(1, b);
    MulIsProduct(a, b);
    MulIsProduct(b, a);
    ProductsCommute(Bytes(), 1, Bits(a), Bits(b));
  }

  lemma MulAssoc(a: bv8, b: bv8, c: bv8)
    ensures Mul(Mul(a, b), c) == Mul(a, Mul(b, c))
  {
    BytesLaws();
    MulComm(a, b);
    MulComm(a, Mul(b, c));
    MulIsProduct(b, a);
    MulIsProduct(Mul(b, a), c);
    MulIsProduct(b, c);
    MulIsProduct(Mul(b, c), a);
    ProductsCommute(Bytes(), b, Bits(a), Bits(c));
  }

  lemma MulOfSum(a: bv8, b: bv8, c: bv8)
    ensures Mul(a, b ^ c) == Mul(a, b) ^ Mul(a, c)
  {
    BytesLaws();
    MulComm(a, b ^ c);
    MulComm(a, b);
    MulComm(a, c);
    MulIsProduct(b ^ c, a);
    MulIsProduct(b, a);
    MulIsProduct(c, a);
    BytesOps(b, c);
    BytesOps(Mul(b, a), Mul(c, a));
    ProductOfSum(Bytes(), b, c, Bits(a));
  }

  // ---------------------------------------------------------------------------------------
  // Inverses.  Dividing x^8 + x^4 + x^3 + x^2 + 1 by a polynomial `a` of degree 5, 6 or 7 gives
  // a quotient q below 0x10 with a * q of smaller degree than a, so an inverse of a is found by
  // recursion; the bytes below 0x20 are checked one by one.

  // One step of the product, then `rest`.
  function Step(a: bv8, b: bv8, rest: bv8): bv8
  {
    (if b & 1 == 1 then a else 0) ^ rest
  }

  lemma MulStep(a: bv8, b: bv8)
    ensures Mul(a, b) == Step(a, b, Mul(Double(a), b >> 1))
  {
  }

  lemma MulByEven(a: bv8, b: bv8)
    requires b & 1 == 0
    ensures Mul(a, b) == Mul(Double(a), b >> 1)
  {
  }

  lemma MulBySmallPowers(a: bv8)
    ensures Mul(a, 1) == a
    ensures Mul(a, 2) == Double(a)
    ensures Mul(a, 4) == Double(Double(a))
    ensures Mul(a, 8) == Double(Double(Double(a)))
  {
    MulByEven(a, 8);
    MulByEven(a, 4);
    MulByEven(a, 2);
    MulByEven(Double(a), 4);
    MulByEven(Double(a), 2);
    MulByEven(Double(Double(a)), 2);
    MulByOneRight(a);
    MulByOneRight(Double(a));
    MulByOneRight(Double(Double(a)));
    MulByOneRight(Double(Double(Double(a))));
  }

  lemma MulByOneRight(a: bv8)
    ensures Mul(a, 1) == a
  {
    MulByOne(a);
    MulComm(a, 1);
  }

  // Long division of the field polynomial by `a`; q is the quotient, a * q the remainder.
  lemma Divide(a: bv8) returns (q: bv8)
    requires 0x20 <= a
    ensures 1 < q < 0x10
    ensures Mul(a, q) < a
  {
    MulBySmallPowers(a);
    var r: bv8;
    if 0x80 <= a {
      q, r := 2, Double(a);
      if r & 0x80 != 0 {
        MulOfSum(a, q, 1);
        q, r := q ^ 1, r ^ a;
      }
    } else if 0x40 <= a {
      q, r := 4, Double(Double(a));
      if r & 0x80 != 0 {
        MulOfSum(a, q, 2);
        q, r := q ^ 2, r ^ Double(a);
      }
      if r & 0x40 != 0 {
        MulOfSum(a, q, 1);
        q, r := q ^ 1, r ^ a;
      }
    } else {
      q, r := 8, Double(Double(Double(a)));
      if r & 0x80 != 0 {
        MulOfSum(a, q, 4);
        q, r := q ^ 4, r ^ Double(Double(a));
      }
      if r & 0x40 != 0 {
        MulOfSum(a, q, 2);
        q, r := q ^ 2, r ^ Double(a);
      }
      if r & 0x20 != 0 {
        MulOfSum(a, q, 1);
        q, r := q ^ 1, r ^ a;
      }
    }
  }

  // The product b * a for an `a` below 0x20, written out.
  function ShortProduct(b: bv8, a: bv8): bv8
  {
    var b1 := Double(b);
    var b2 := Double(b1);
    var b3 := Double(b2);
    var b4 := Double(b3);
    Step(b, a, Step(b1, a >> 1, Step(b2, a >> 2, Step(b3, a >> 3, Step(b4, a >> 4, 0)))))
  }

  lemma MulIsShortProduct(b: bv8, a: bv8)
    requires a < 0x20
    ensures Mul(b, a) == ShortProduct(b, a)
  {
    var b2 := Double(Double(b));
    MulTwoSteps(b, a);
    MulTwoSteps(b2, a >> 2);
    MulStep(Double(Double(b2)), a >> 4);
    assert (a >> 2) >> 1 == a >> 3 && (a >> 2) >> 2 == a >> 4 && (a >> 4) >> 1 == 0;
  }

  lemma MulTwoSteps(a: bv8, b: bv8)
    ensures Mul(a, b) == Step(a, b, Step(Double(a), b >> 1, Mul(Double(Double(a)), b >> 2)))
  {
    MulStep(a, b);
    MulStep(Double(a), b >> 1);
    assert (b >> 1) >> 1 == b >> 2;
  }

  function SmallInverse(a: bv8): bv8
  {
    match a
    case 0x01 => 0x01 case 0x03 => 0xf4 case 0x05 => 0xa7 case 0x07 => 0xba
    case 0x09 => 0x9d case 0x0b => 0x98 case 0x0d => 0xaa case 0x0f => 0x96
    case 0x11 => 0x72 case 0x13 => 0x58 case 0x15 => 0x3e case 0x17 => 0x66
    case 0x19 => 0xde case 0x1b => 0x80 case 0x1d => 0x83 case 0x1f => 0x2a
    case _ => 0
  }

  lemma SmallInverseIsInverse(a: bv8)
    requires a < 0x20 && a & 1 == 1
    ensures ShortProduct(SmallInverse(a), a) == 1
  {
  }

  lemma {:induction false} InverseExists(a: bv8) returns (b: bv8)
    requires a != 0
    ensures Mul(a, b) == 1
    decreases a
  {
    if a & 1 == 0 {
      var h := a >> 1;
      assert Double(h) == a && h != 0 && h < a;
      var c := InverseExists(h);
      b := Mul(0x8e, c);
      HalveInverse(h, c);
    } else if a < 0x20 {
      b := SmallInverse(a);
      SmallInverseIsInverse(a);
      MulIsShortProduct(b, a);
      MulComm(a, b);
    } else {
      var q := Divide(a);
      var p := InverseExists(q);
      ProductNonZero(a, q, p);
      var c := InverseExists(Mul(a, q));
      b := Mul(q, c);
      MulAssoc(a, q, c);
    }
  }

  // 0x8e is the inverse of x.
  lemma HalveInverse(h: bv8, c: bv8)
    requires Mul(h, c) == 1
    ensures Mul(Double(h), Mul(0x8e, c)) == 1
  {
    MulOfDouble(h, Mul(0x8e, c));
    MulAssoc(h, 0x8e, c);
    MulComm(h, 0x8e);
    MulAssoc(0x8e, h, c);
    MulComm(0x8e, 1);
    MulByOne(0x8e);
    assert Double(0x8e) == 1;
  }

  lemma ProductNonZero(a: bv8, q: bv8, p: bv8)
    requires a != 0 && Mul(q, p) == 1
    ensures Mul(a, q) != 0
  {
    MulAssoc(a, q, p);
    MulByOneRight(a);
    MulComm(0, p);
  }

  // The search of src/gf256.c: the first b, from 1 up, whose product with a is 1.
  function InverseFrom(a: bv8, b: bv8): bv8
    decreases 0xff - b
  {
    if b == 0xff || Mul(a, b) == 1 then b else InverseFrom(a, b + 1)
  }

  function Inv(a: bv8): bv8
  {
    if a == 0 then 0 else InverseFrom(a, 1)
  }

  // The byte with its n lowest bits set.
  ghost predicate IsMask(m: bv8, n: nat)
  {
    || (m == 0 && n == 0) || (m == 0x01 && n == 1) || (m == 0x03 && n == 2) || (m == 0x07 && n == 3) || (m == 0x0f && n == 4)
    || (m == 0x1f && n == 5) || (m == 0x3f && n == 6) || (m == 0x7f && n == 7) || (m == 0xff && n == 8)
  }

  lemma SameByte(x: bv8, y: bv8)
    requires x as int == y as int
    ensures x == y
  {
  }

  lemma NextByte(b: bv8, c: bv8)
    requires b <= c && b != c
    ensures b + 1 <= c && b != 0xff && 0xff - (b + 1) < 0xff - b
  {
  }

  lemma {:induction false} SearchFinds(a: bv8, b: bv8, c: bv8)
    requires Mul(a, c) == 1 && b <= c
    ensures Mul(a, InverseFrom(a, b)) == 1
    decreases 0xff - b
  {
    if b != c {
      NextByte(b, c);
      if Mul(a, b) != 1 {
        SearchFinds(a, b + 1, c);
      }
    }
  }

  lemma InvIsInverse(a: bv8)
    requires a != 0
    ensures Mul(a, Inv(a)) == 1
  {
    var c := InverseExists(a);
    MulComm(a, 0);
    SearchFinds(a, 1, c);
  }

  // ---------------------------------------------------------------------------------------
  // The bytes as a field.

  function Gf(): Field<bv8>
  {
    Field(0, 1, (a: bv8, b: bv8) => a ^ b, (a: bv8, b: bv8) => Mul(a, b), (a: bv8) => Inv(a))
  }

  lemma GfOps(a: bv8, b: bv8)
    ensures Gf().Add(a, b) == a ^ b
    ensures Gf().Mul(a, b) == Mul(a, b)
    ensures Gf().Inv(a) == Inv(a)
    ensures Gf().zero == 0 && Gf().one == 1
  {
  }

  lemma GfSumLawsAt(a: bv8, b: bv8, c: bv8)
    ensures var f := Gf();
      f.Add(f.Add(a, b), c) == f.Add(a, f.Add(b, c)) && f.Add(a, b) == f.Add(b, a) && f.Add(f.zero, a) == a
      && f.Add(a, a) == f.zero
  {
    BytesGroupLawsAt(a, b, c);
    BytesOps(a, b);
    BytesOps(b, c);
    BytesOps(b, a);
    BytesOps(a ^ b, c);
    BytesOps(a, b ^ c);
    GfOps(a, b);
    GfOps(b, c);
    GfOps(b, a);
    GfOps(a ^ b, c);
    GfOps(a, b ^ c);
    GfOps(0, a);
    GfOps(a, a);
    XorLaws(a, b, c);
  }

  lemma GfProductLawsAt(a: bv8, b: bv8, c: bv8)
    ensures var f := Gf();
      f.Mul(f.Mul(a, b), c) == f.Mul(a, f.Mul(b, c)) && f.Mul(a, b) == f.Mul(b, a) && f.Mul(f.one, a) == a
      && (a != f.zero ==> f.Mul(a, f.Inv(a)) == f.one)
  {
    GfOps(a, b);
    GfOps(b, c);
    GfOps(b, a);
    GfOps(1, a);
    GfOps(Mul(a, b), c);
    GfOps(a, Mul(b, c));
    GfOps(a, Inv(a));
    MulAssoc(a, b, c);
    MulComm(a, b);
    MulByOne(a);
    if a != 0 {
      InvIsInverse(a);
    }
  }

  lemma GfLawsAt(a: bv8, b: bv8, c: bv8)
    ensures LawsAt(Gf(), a, b, c)
  {
    GfSumLawsAt(a, b, c);
    GfProductLawsAt(a, b, c);
    GfOps(b, c);
    GfOps(a, b);
    GfOps(a, c);
    GfOps(a, b ^ c);
    GfOps(Mul(a, b), Mul(a, c));
    MulOfSum(a, b, c);
  }

  lemma GfIsField()
    ensures Laws(Gf())
  {
    forall a: bv8, b: bv8, c: bv8
      ensures LawsAt(Gf(), a, b, c)
    {
      GfLawsAt(a, b, c);
    }
  }
}
