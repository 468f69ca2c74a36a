/**
 Fields of characteristic two.

 The codec is linear algebra over GF(2^8), and nothing in it depends on the size of the
 field.  The codec is therefore stated over any `Field` whose `Laws` hold; module `Gf256`
 shows that the tables of src/gf256.c are one.
 */
module Fields {

  datatype Field<!E> = Field(zero: E, one: E, add: (E, E) -> E, mul: (E, E) -> E, inv: E -> E)
  {
    function Add(a: E, b: E): E { add(a, b) }
    function Mul(a: E, b: E): E { mul(a, b) }
    function Inv(a: E): E { inv(a) }
  }

  // Names the elements at which a law is wanted, so that the laws are instantiated on request only.
  ghost predicate At<E>(a: E, b: E, c: E) { true }

  ghost predicate Laws<E(!new)>(f: Field<E>)
  {
    forall a: E, b: E, c: E {:trigger At(a, b, c)} :: LawsAt(f, a, b, c)
  }

  ghost predicate LawsAt<E>(f: Field<E>, a: E, b: E, c: E)
  {
    && f.Add(f.Add(a, b), c) == f.Add(a, f.Add(b, c))
    && f.Add(a, b) == f.Add(b, a)
    && f.Add(f.zero, a) == a
    && f.Add(a, a) == f.zero
    && f.Mul(f.Mul(a, b), c) == f.Mul(a, f.Mul(b, c))
    && f.Mul(a, b) == f.Mul(b, a)
    && f.Mul(f.one, a) == a
    && f.Mul(a, f.Add(b, c)) == f.Add(f.Mul(a, b), f.Mul(a, c))
    && (a != f.zero ==> f.Mul(a, f.Inv(a)) == f.one)
    && f.one != f.zero
  }

  lemma AddAssoc<E(!new)>(f: Field<E>, a: E, b: E, c: E)
    requires Laws(f)
    ensures f.Add(f.Add(a, b), c) == f.Add(a, f.Add(b, c))
  {
    assert At(a, b, c);
  }

  lemma AddComm<E(!new)>(f: Field<E>, a: E, b: E)
    requires Laws(f)
    ensures f.Add(a, b) == f.Add(b, a)
  {
    assert At(a, b, b);
  }

  lemma AddZero<E(!new)>(f: Field<E>, a: E)
    requires Laws(f)
    ensures f.Add(a, f.zero) == a == f.Add(f.zero, a)
  {
    assert At(a, f.zero, a);
  }

  lemma AddSelf<E(!new)>(f: Field<E>, a: E)
    requires Laws(f)
    ensures f.Add(a, a) == f.zero
  {
    assert At(a, a, a);
  }

  // Adding the same element on both sides can be undone.
  lemma AddCancel<E(!new)>(f: Field<E>, a: E, b: E, c: E)
    requires Laws(f)
    ensures f.Add(a, c) == f.Add(b, c) <==> a == b
    ensures f.Add(a, b) == f.zero <==> a == b
  {
    AddAssoc(f, a, c, c);
    AddAssoc(f, b, c, c);
    AddAssoc(f, a, b, b);
    AddSelf(f, c);
    AddSelf(f, b);
    AddZero(f, a);
    AddZero(f, b);
  }

  lemma Exchange<E(!new)>(f: Field<E>, p: E, q: E, r: E, s: E)
    requires Laws(f)
    ensures f.Add(f.Add(p, q), f.Add(r, s)) == f.Add(f.Add(p, r), f.Add(q, s))
  {
    AddAssoc(f, p, q, f.Add(r, s));
    AddAssoc(f, q, r, s);
    AddComm(f, q, r);
    AddAssoc(f, r, q, s);
    AddAssoc(f, p, r, f.Add(q, s));
  }

  lemma Distribute<E(!new)>(f: Field<E>, a: E, b: E, c: E)
    requires Laws(f)
    ensures f.Mul(a, f.Add(b, c)) == f.Add(f.Mul(a, b), f.Mul(a, c))
    ensures f.Mul(f.Add(b, c), a) == f.Add(f.Mul(b, a), f.Mul(c, a))
  {
    assert At(a, b, c);
    assert At(a, f.Add(b, c), a);
    assert At(a, b, b);
    assert At(a, c, c);
  }

  lemma MulAssoc<E(!new)>(f: Field<E>, a: E, b: E, c: E)
    requires Laws(f)
    ensures f.Mul(f.Mul(a, b), c) == f.Mul(a, f.Mul(b, c))
  {
    assert At(a, b, c);
  }

  lemma MulComm<E(!new)>(f: Field<E>, a: E, b: E)
    requires Laws(f)
    ensures f.Mul(a, b) == f.Mul(b, a)
  {
    assert At(a, b, b);
  }

  lemma MulOne<E(!new)>(f: Field<E>, a: E)
    requires Laws(f)
    ensures f.Mul(a, f.one) == a == f.Mul(f.one, a)
  {
    assert At(a, f.one, a);
  }

  lemma MulZero<E(!new)>(f: Field<E>, a: E)
    requires Laws(f)
    ensures f.Mul(a, f.zero) == f.zero == f.Mul(f.zero, a)
  {
    AddSelf(f, f.zero);
    Distribute(f, a, f.zero, f.zero);
    AddSelf(f, f.Mul(a, f.zero));
    MulComm(f, a, f.zero);
  }

  lemma MulInverse<E(!new)>(f: Field<E>, a: E)
    requires Laws(f)
    requires a != f.zero
    ensures f.Mul(a, f.Inv(a)) == f.one == f.Mul(f.Inv(a), a)
    ensures f.Inv(a) != f.zero
  {
    assert At(a, f.Inv(a), a);
    MulZero(f, a);
  }

  // A field has no zero divisors.
  lemma MulNonZero<E(!new)>(f: Field<E>, a: E, b: E)
    requires Laws(f)
    requires a != f.zero
    ensures f.Mul(a, b) == f.zero <==> b == f.zero
  {
    MulInverse(f, a);
    MulAssoc(f, f.Inv(a), a, b);
    MulOne(f, b);
    MulZero(f, f.Inv(a));
    MulZero(f, a);
  }
}
