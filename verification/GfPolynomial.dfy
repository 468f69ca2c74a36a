/**
 What the byte product means: multiplication of polynomials over GF(2) modulo
 x^8 + x^4 + x^3 + x^2 + 1.  A polynomial is the set of the exponents of its terms.
 */
module GfPolynomial {
  import opened Fields
  import opened Gf256

  type Poly = set<nat>

  const FIELD_POLYNOMIAL: Poly := {0, 2, 3, 4, 8}

  function Plus(p: Poly, q: Poly): Poly { (p - q) + (q - p) }

  function TimesX(p: Poly): Poly { set e | e in p :: e + 1 }

  function Polys(): Doubling<Poly>
  {
    Doubling({}, (p: Poly, q: Poly) => Plus(p, q), (p: Poly) => TimesX(p))
  }

  // The polynomial with the bits of a byte as coefficients.
  function Terms(a: bv8): Poly
    decreases a
  {
    if a == 0 then {}
    else Plus(if a & 1 == 1 then {0} else {}, TimesX(Terms(a >> 1)))
  }

  // The product of p and the polynomial whose coefficients are `bits`, lowest first.
  function PolyTimes(p: Poly, bits: seq<bool>): Poly
    decreases |bits|
  {
    if bits == [] then {}
    else Plus(if bits[0] then p else {}, PolyTimes(TimesX(p), bits[1..]))
  }

  lemma PolysOps(p: Poly, q: Poly)
    ensures Polys().Add(p, q) == Plus(p, q)
    ensures Polys().Dbl(p) == TimesX(p)
    ensures Polys().zero == {}
  {
  }

  lemma PlusLaws(p: Poly, q: Poly, r: Poly)
    ensures Plus(Plus(p, q), r) == Plus(p, Plus(q, r))
    ensures Plus(p, q) == Plus(q, p)
    ensures Plus({}, p) == p
    ensures Plus(p, p) == {}
  {
  }

  lemma TimesXOfSum(p: Poly, q: Poly)
    ensures TimesX(Plus(p, q)) == Plus(TimesX(p), TimesX(q))
  {
    forall e: nat
      ensures e in TimesX(Plus(p, q)) <==> e in Plus(TimesX(p), TimesX(q))
    {
      InTimesX(p, e);
      InTimesX(q, e);
      InTimesX(Plus(p, q), e);
    }
  }

  lemma InTimesX(p: Poly, e: nat)
    ensures e in TimesX(p) <==> e > 0 && e - 1 in p
  {
    if e > 0 && e - 1 in p {
      assert (e - 1) + 1 in TimesX(p);
    }
  }

  lemma PolysLawsAt(p: Poly, q: Poly, r: Poly)
    ensures DoublingLawsAt(Polys(), p, q, r)
  {
    PolysOps(p, q);
    PolysOps(q, r);
    PolysOps(q, p);
    PolysOps(Plus(p, q), r);
    PolysOps(p, Plus(q, r));
    PolysOps({}, p);
    PolysOps({}, {});
    PolysOps(TimesX(p), TimesX(q));
    PlusLaws(p, q, r);
    TimesXOfSum(p, q);
    assert TimesX({}) == {};
  }

  lemma PolysLaws()
    ensures DoublingLaws(Polys())
  {
    forall p: Poly, q: Poly, r: Poly
      ensures DoublingLawsAt(Polys(), p, q, r)
    {
      PolysLawsAt(p, q, r);
    }
  }

  lemma {:induction false} PolyTimesIsProduct(p: Poly, bits: seq<bool>)
    ensures PolyTimes(p, bits) == Product(Polys(), p, bits)
    decreases |bits|
  {
    if bits != [] {
      PolyTimesIsProduct(TimesX(p), bits[1..]);
    }
  }

  lemma PolyTimesOfSum(p: Poly, q: Poly, bits: seq<bool>)
    ensures PolyTimes(Plus(p, q), bits) == Plus(PolyTimes(p, bits), PolyTimes(q, bits))
  {
    PolysLaws();
    PolyTimesIsProduct(p, bits);
    PolyTimesIsProduct(q, bits);
    PolyTimesIsProduct(Plus(p, q), bits);
    PolysOps(p, q);
    PolysOps(PolyTimes(p, bits), PolyTimes(q, bits));
    ProductOfSum(Polys(), p, q, bits);
  }

  function XorBits(s: seq<bool>, t: seq<bool>): seq<bool>
    decreases |s|
  {
    if s == [] then t
    else if t == [] then s
    else [s[0] != t[0]] + XorBits(s[1..], t[1..])
  }

  lemma PlusExchange(p: Poly, q: Poly, r: Poly, s: Poly)
    ensures Plus(Plus(p, q), Plus(r, s)) == Plus(Plus(p, r), Plus(q, s))
    ensures Plus(p, Plus(Plus(q, r), s)) == Plus(Plus(q, s), Plus(p, r))
  {
  }

  lemma {:induction false} PolyTimesXorBits(p: Poly, s: seq<bool>, t: seq<bool>)
    ensures PolyTimes(p, XorBits(s, t)) == Plus(PolyTimes(p, s), PolyTimes(p, t))
    decreases |s|
  {
    PlusLaws(PolyTimes(p, s), {}, {});
    PlusLaws(PolyTimes(p, t), {}, {});
    if s != [] && t != [] {
      var p1 := TimesX(p);
      PolyTimesXorBits(p1, s[1..], t[1..]);
      PlusExchange(if s[0] then p else {}, PolyTimes(p1, s[1..]), if t[0] then p else {}, PolyTimes(p1, t[1..]));
      PlusLaws(p, p, p);
      PlusLaws({}, p, p);
      assert XorBits(s, t)[1..] == XorBits(s[1..], t[1..]);
    }
  }

  lemma TermsUnfold(a: bv8)
    ensures Terms(a) == Plus(if a & 1 == 1 then {0} else {}, TimesX(Terms(a >> 1)))
  {
    if a == 0 {
      assert TimesX({}) == {};
      PlusLaws({}, {}, {});
    }
  }

  // x is the exclusive or of a and b, bit by bit.
  ghost predicate Xored(a: bv8, b: bv8, x: bv8)
    decreases a | b
  {
    if a | b == 0 then x == 0
    else
      && (x & 1 == 1 <==> (a & 1 == 1) != (b & 1 == 1))
      && (a >> 1) | (b >> 1) < a | b
      && Xored(a >> 1, b >> 1, x >> 1)
  }

  lemma HalvesOfXor(a: bv8, b: bv8)
    ensures (a ^ b) & 1 == 1 <==> (a & 1 == 1) != (b & 1 == 1)
    ensures (a ^ b) >> 1 == (a >> 1) ^ (b >> 1)
    ensures a | b != 0 ==> (a >> 1) | (b >> 1) < a | b
    ensures a | b == 0 ==> a ^ b == 0
  {
  }

  lemma {:induction false} XorIsXored(a: bv8, b: bv8)
    ensures Xored(a, b, a ^ b)
    decreases a | b
  {
    HalvesOfXor(a, b);
    if a | b != 0 {
      XorIsXored(a >> 1, b >> 1);
    }
  }

  lemma {:induction false} TermsOfXored(a: bv8, b: bv8, x: bv8)
    requires Xored(a, b, x)
    ensures Terms(x) == Plus(Terms(a), Terms(b))
    decreases a | b
  {
    if a | b == 0 {
      assert a == 0 && b == 0;
    } else {
      TermsOfXored(a >> 1, b >> 1, x >> 1);
      CombineTerms(a, b, x);
    }
  }

  lemma TermsOfXor(a: bv8, b: bv8)
    ensures Terms(a ^ b) == Plus(Terms(a), Terms(b))
  {
    XorIsXored(a, b);
    TermsOfXored(a, b, a ^ b);
  }

  lemma CombineTerms(a: bv8, b: bv8, x: bv8)
    requires x & 1 == 1 <==> (a & 1 == 1) != (b & 1 == 1)
    requires Terms(x >> 1) == Plus(Terms(a >> 1), Terms(b >> 1))
    ensures Terms(x) == Plus(Terms(a), Terms(b))
  {
    TermsUnfold(a);
    TermsUnfold(b);
    TermsUnfold(x);
    TimesXOfSum(Terms(a >> 1), Terms(b >> 1));
    PlusExchange(if a & 1 == 1 then {0} else {}, TimesX(Terms(a >> 1)), if b & 1 == 1 then {0} else {}, TimesX(Terms(b >> 1)));
    PlusLaws({0}, {0}, {});
    PlusLaws({}, {0}, {});
    PlusLaws({}, {}, {});
  }

  lemma TermsOfShift(a: bv8)
    requires a < 0x80
    ensures Terms(a << 1) == TimesX(Terms(a))
  {
    assert (a << 1) >> 1 == a && (a << 1) & 1 == 0;
    TermsUnfold(a << 1);
    PlusLaws({}, TimesX(Terms(a)), {});
  }

  lemma TermOfShift(a: bv8, e: nat)
    requires a < 0x80 && Terms(a) == {e}
    ensures Terms(a << 1) == {e + 1}
  {
    TermsOfShift(a);
    assert TimesX({e}) == {e + 1};
  }

  lemma TermsOfPowers()
    ensures Terms(0x01) == {0} && Terms(0x04) == {2} && Terms(0x08) == {3} && Terms(0x10) == {4} && Terms(0x80) == {7}
  {
    TermsUnfold(1);
    assert TimesX({}) == {};
    TermOfShift(0x01, 0);
    TermOfShift(0x02, 1);
    TermOfShift(0x04, 2);
    TermOfShift(0x08, 3);
    TermOfShift(0x10, 4);
    TermOfShift(0x20, 5);
    TermOfShift(0x40, 6);
  }

  lemma TermsOfReduction()
    ensures Terms(0x1d) == {0, 2, 3, 4}
  {
    TermsOfPowers();
    TermsOfXor(0x01, 0x04);
    TermsOfXor(0x05, 0x08);
    TermsOfXor(0x0d, 0x10);
  }

  lemma DoubleByTopBit(a: bv8)
    ensures a & 0x80 == 0 ==> a < 0x80 && Double(a) == a << 1
    ensures a & 0x80 != 0 ==> var b := a ^ 0x80; b < 0x80 && b ^ 0x80 == a && Double(a) == (b << 1) ^ 0x1d
  {
  }

  lemma TimesXReduced(p: Poly)
    ensures TimesX(Plus(p, {7})) == Plus(Plus(TimesX(p), {0, 2, 3, 4}), FIELD_POLYNOMIAL)
  {
    TimesXOfSum(p, {7});
    assert TimesX({7}) == {8};
    ReduceTerms(TimesX(p));
  }

  // Doubling a byte multiplies its polynomial by x and, when x^8 appears, subtracts the field
  // polynomial.
  lemma TermsOfDouble(a: bv8)
    ensures TimesX(Terms(a)) == (if a & 0x80 != 0 then Plus(Terms(Double(a)), FIELD_POLYNOMIAL) else Terms(Double(a)))
  {
    DoubleByTopBit(a);
    if a & 0x80 == 0 {
      TermsOfShift(a);
    } else {
      var b := a ^ 0x80;
      TermsOfShift(b);
      TermsOfXor(b, 0x80);
      TermsOfXor(b << 1, 0x1d);
      TermsOfPowers();
      TermsOfReduction();
      TimesXReduced(Terms(b));
    }
  }

  lemma ReduceTerms(p: Poly)
    ensures Plus(p, {8}) == Plus(Plus(p, {0, 2, 3, 4}), FIELD_POLYNOMIAL)
  {
  }

  lemma {:induction false} DegreeBelow(a: bv8, m: bv8, n: nat)
    requires IsMask(m, n) && a <= m
    ensures forall e :: e in Terms(a) ==> e < n
    decreases n
  {
    if a != 0 {
      DegreeBelow(a >> 1, m >> 1, n - 1);
      forall e | e in Terms(a)
        ensures e < n
      {
        InTimesX(Terms(a >> 1), e);
      }
    }
  }

  // The byte product is a remainder of the polynomial product: the two differ by a multiple of
  // the field polynomial.
  lemma {:induction false} MulDiffersByMultiple(a: bv8, b: bv8) returns (q: seq<bool>)
    ensures PolyTimes(Terms(a), Bits(b)) == Plus(PolyTimes(FIELD_POLYNOMIAL, q), Terms(Mul(a, b)))
    decreases b
  {
    if b == 0 {
      q := [];
    } else {
      var c := b >> 1;
      var q1 := MulDiffersByMultiple(Double(a), c);
      q := PolyStep(a, b, q1);
    }
  }

  lemma PolyTimesShifted(a: bv8, c: seq<bool>)
    ensures PolyTimes(TimesX(Terms(a)), c) ==
      Plus(PolyTimes(Terms(Double(a)), c), PolyTimes(FIELD_POLYNOMIAL, if a & 0x80 != 0 then c else []))
  {
    TermsOfDouble(a);
    if a & 0x80 != 0 {
      PolyTimesOfSum(Terms(Double(a)), FIELD_POLYNOMIAL, c);
    } else {
      PlusLaws(PolyTimes(Terms(Double(a)), c), {}, {});
    }
  }

  lemma PolyStep(a: bv8, b: bv8, q1: seq<bool>) returns (q: seq<bool>)
    requires b != 0
    requires PolyTimes(Terms(Double(a)), Bits(b >> 1)) ==
      Plus(PolyTimes(FIELD_POLYNOMIAL, q1), Terms(Mul(Double(a), b >> 1)))
    ensures PolyTimes(Terms(a), Bits(b)) == Plus(PolyTimes(FIELD_POLYNOMIAL, q), Terms(Mul(a, b)))
  {
    var c := Bits(b >> 1);
    var more := if a & 0x80 != 0 then c else [];
    q := XorBits(q1, more);
    PolyTimesBits(a, b);
    TermsOfProduct(a, b);
    PolyTimesShifted(a, c);
    PolyTimesXorBits(FIELD_POLYNOMIAL, q1, more);
    PlusExchange(Terms(LowBitTimes(a, b)), PolyTimes(FIELD_POLYNOMIAL, q1), Terms(Mul(Double(a), b >> 1)),
                 PolyTimes(FIELD_POLYNOMIAL, more));
  }

  // a, or nothing, by the lowest bit of b.
  function LowBitTimes(a: bv8, b: bv8): bv8
  {
    if b & 1 == 1 then a else 0
  }

  lemma TermsOfProduct(a: bv8, b: bv8)
    requires b != 0
    ensures Terms(Mul(a, b)) == Plus(Terms(LowBitTimes(a, b)), Terms(Mul(Double(a), b >> 1)))
  {
    TermsOfXor(LowBitTimes(a, b), Mul(Double(a), b >> 1));
  }

  lemma PolyTimesBits(a: bv8, b: bv8)
    requires b != 0
    ensures PolyTimes(Terms(a), Bits(b)) ==
      Plus(Terms(LowBitTimes(a, b)), PolyTimes(TimesX(Terms(a)), Bits(b >> 1)))
  {
    assert Bits(b)[1..] == Bits(b >> 1);
  }

  // A non-zero multiple of a polynomial of degree d has degree at least d.
  lemma {:induction false} MultipleHasHighTerm(p: Poly, d: nat, q: seq<bool>)
    requires d in p && forall e :: e in p ==> e <= d
    ensures PolyTimes(p, q) == {} || exists e :: e in PolyTimes(p, q) && e >= d
    decreases |q|
  {
    if q != [] {
      var p1, rest := TimesX(p), q[1..];
      InTimesX(p, d + 1);
      forall e | e in p1
        ensures e <= d + 1
      {
        InTimesX(p, e);
      }
      MultipleHasHighTerm(p1, d + 1, rest);
      if PolyTimes(p1, rest) == {} {
        PlusLaws(p, {}, {});
        PlusLaws({}, {}, {});
      } else {
        var e :| e in PolyTimes(p1, rest) && e >= d + 1;
        assert e !in p && e in PolyTimes(p, q);
      }
    }
  }

  ghost predicate IsRemainder(p: Poly, r: Poly)
  {
    (forall e :: e in r ==> e < 8) && exists q: seq<bool> :: p == Plus(PolyTimes(FIELD_POLYNOMIAL, q), r)
  }

  // The table of products holds multiplication modulo x^8 + x^4 + x^3 + x^2 + 1: the product
  // is the one remainder of the polynomial product.
  lemma MulIsPolynomialProduct(a: bv8, b: bv8, r: Poly)
    ensures IsRemainder(PolyTimes(Terms(a), Bits(b)), r) <==> r == Terms(Mul(a, b))
  {
    var p, m := PolyTimes(Terms(a), Bits(b)), Terms(Mul(a, b));
    var q := MulDiffersByMultiple(a, b);
    DegreeBelow(Mul(a, b), 0xff, 8);
    if IsRemainder(p, r) {
      var q1 :| p == Plus(PolyTimes(FIELD_POLYNOMIAL, q1), r);
      PolyTimesXorBits(FIELD_POLYNOMIAL, q, q1);
      MultipleHasHighTerm(FIELD_POLYNOMIAL, 8, XorBits(q, q1));
      RemaindersDiffer(PolyTimes(FIELD_POLYNOMIAL, q), m, PolyTimes(FIELD_POLYNOMIAL, q1), r);
    }
  }

  lemma RemaindersDiffer(m: Poly, r: Poly, n: Poly, s: Poly)
    requires Plus(m, r) == Plus(n, s)
    ensures Plus(m, n) == Plus(r, s)
    ensures Plus(r, s) == {} ==> r == s
  {
    forall e: nat
      ensures e in Plus(m, n) <==> e in Plus(r, s)
    {
      assert e in Plus(m, r) <==> e in Plus(n, s);
    }
    if Plus(r, s) == {} {
      forall e: nat
        ensures e in r <==> e in s
      {
        assert e !in Plus(r, s);
      }
    }
  }
}
