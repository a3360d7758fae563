/** The template parameter g of ReedSolomon<g>: the operators of a Galois<...> type as a record of
    functions. Subtraction is the same exclusive or as addition, so it has no entry of its own. */
module Fields {

  datatype Field<!T> = Field(zero: T, one: T, add: (T, T) -> T, mul: (T, T) -> T, div: (T, T) -> T)

  /** The laws of a field of characteristic 2 */
  ghost predicate IsField<T(!new)>(f: Field<T>) {
    && f.zero != f.one
    && (forall a, b :: f.add(a, b) == f.add(b, a))
    && (forall a, b, c :: f.add(f.add(a, b), c) == f.add(a, f.add(b, c)))
    && (forall a :: f.add(a, f.zero) == a)
    && (forall a :: f.add(a, a) == f.zero)
    && (forall a, b :: f.mul(a, b) == f.mul(b, a))
    && (forall a, b, c :: f.mul(f.mul(a, b), c) == f.mul(a, f.mul(b, c)))
    && (forall a :: f.mul(a, f.one) == a)
    && (forall a, b, c :: f.mul(f.add(a, b), c) == f.add(f.mul(a, c), f.mul(b, c)))
    && (forall a, b :: b != f.zero ==> f.mul(f.div(a, b), b) == a)
  }

  lemma AddComm<T(!new)>(f: Field<T>, a: T, b: T)
    requires IsField(f)
    ensures f.add(a, b) == f.add(b, a)
  {
  }

  lemma AddAssoc<T(!new)>(f: Field<T>, a: T, b: T, c: T)
    requires IsField(f)
    ensures f.add(f.add(a, b), c) == f.add(a, f.add(b, c))
  {
  }

  lemma AddZero<T(!new)>(f: Field<T>, a: T)
    requires IsField(f)
    ensures f.add(a, f.zero) == a && f.add(f.zero, a) == a
  {
    AddComm(f, a, f.zero);
  }

  lemma AddSelf<T(!new)>(f: Field<T>, a: T)
    requires IsField(f)
    ensures f.add(a, a) == f.zero
  {
  }

  lemma MulComm<T(!new)>(f: Field<T>, a: T, b: T)
    requires IsField(f)
    ensures f.mul(a, b) == f.mul(b, a)
  {
  }

  lemma MulAssoc<T(!new)>(f: Field<T>, a: T, b: T, c: T)
    requires IsField(f)
    ensures f.mul(f.mul(a, b), c) == f.mul(a, f.mul(b, c))
  {
  }

  lemma MulOne<T(!new)>(f: Field<T>, a: T)
    requires IsField(f)
    ensures f.mul(a, f.one) == a && f.mul(f.one, a) == a
  {
    MulComm(f, a, f.one);
  }

  lemma Distribute<T(!new)>(f: Field<T>, a: T, b: T, c: T)
    requires IsField(f)
    ensures f.mul(f.add(a, b), c) == f.add(f.mul(a, c), f.mul(b, c))
    ensures f.mul(c, f.add(a, b)) == f.add(f.mul(c, a), f.mul(c, b))
  {
    MulComm(f, f.add(a, b), c);
    MulComm(f, a, c);
    MulComm(f, b, c);
  }

  lemma DivMul<T(!new)>(f: Field<T>, a: T, b: T)
    requires IsField(f) && b != f.zero
    ensures f.mul(f.div(a, b), b) == a
  {
  }

  lemma ZeroNotOne<T(!new)>(f: Field<T>)
    requires IsField(f)
    ensures f.zero != f.one
  {
  }

  // ----- consequences

  lemma AddCancel<T(!new)>(f: Field<T>, a: T, b: T)
    requires IsField(f)
    ensures f.add(f.add(a, b), b) == a
    ensures f.add(a, b) == f.zero <==> a == b
  {
    hide IsField;
    AddAssoc(f, a, b, b);
    AddSelf(f, b);
    AddZero(f, a);
    AddZero(f, b);
  }

  lemma AddSameRight<T(!new)>(f: Field<T>, a: T, b: T, t: T)
    requires IsField(f)
    ensures f.add(a, t) == f.add(b, t) <==> a == b
  {
    hide IsField;
    AddCancel(f, a, t);
    AddCancel(f, b, t);
  }

  lemma AddSwap<T(!new)>(f: Field<T>, a: T, b: T, c: T, d: T)
    requires IsField(f)
    ensures f.add(f.add(a, b), f.add(c, d)) == f.add(f.add(a, c), f.add(b, d))
  {
    hide IsField;
    AddAssoc(f, a, b, f.add(c, d));
    AddAssoc(f, b, c, d);
    AddComm(f, b, c);
    AddAssoc(f, c, b, d);
    AddAssoc(f, a, c, f.add(b, d));
  }

  lemma MulZero<T(!new)>(f: Field<T>, a: T)
    requires IsField(f)
    ensures f.mul(a, f.zero) == f.zero && f.mul(f.zero, a) == f.zero
  {
    hide IsField;
    AddSelf(f, a);
    Distribute(f, a, a, a);
    AddSelf(f, f.mul(a, a));
    MulComm(f, a, f.zero);
  }

  /** Equal products with the same nonzero factor have equal other factors. */
  lemma MulCancel<T(!new)>(f: Field<T>, a: T, b: T, c: T)
    requires IsField(f) && c != f.zero && f.mul(a, c) == f.mul(b, c)
    ensures a == b
  {
    hide IsField;
    var i := f.div(f.one, c);
    DivMul(f, f.one, c);
    MulComm(f, i, c);
    MulAssoc(f, a, c, i);
    MulAssoc(f, b, c, i);
    MulOne(f, a);
    MulOne(f, b);
  }

  lemma NoZeroDivisors<T(!new)>(f: Field<T>, a: T, b: T)
    requires IsField(f) && f.mul(a, b) == f.zero && b != f.zero
    ensures a == f.zero
  {
    hide IsField;
    MulZero(f, b);
    MulCancel(f, a, f.zero, b);
  }

  lemma DivZeroAndSelf<T(!new)>(f: Field<T>, b: T)
    requires IsField(f) && b != f.zero
    ensures f.div(f.zero, b) == f.zero && f.div(b, b) == f.one
  {
    hide IsField;
    DivMul(f, f.zero, b);
    NoZeroDivisors(f, f.div(f.zero, b), b);
    DivMul(f, b, b);
    MulOne(f, b);
    MulCancel(f, f.div(b, b), f.one, b);
  }

  /** b to the power e, by repeated multiplication */
  function Power<T>(f: Field<T>, b: T, e: nat): T {
    if e == 0 then f.one else f.mul(Power(f, b, e - 1), b)
  }

  lemma {:induction false} PowerSum<T(!new)>(f: Field<T>, b: T, d: nat, e: nat)
    requires IsField(f)
    ensures Power(f, b, d + e) == f.mul(Power(f, b, d), Power(f, b, e))
  {
    hide IsField;
    if e == 0 {
      MulOne(f, Power(f, b, d));
    } else {
      PowerSum(f, b, d, e - 1);
      MulAssoc(f, Power(f, b, d), Power(f, b, e - 1), b);
    }
  }

  lemma {:induction false} PowerProduct<T(!new)>(f: Field<T>, b: T, d: nat, e: nat)
    requires IsField(f)
    ensures Power(f, b, d * e) == Power(f, Power(f, b, d), e)
  {
    hide IsField;
    if e == 0 {
      assert d * e == 0;
    } else {
      PowerProduct(f, b, d, e - 1);
      assert d * e == d * (e - 1) + d;
      PowerSum(f, b, d * (e - 1), d);
    }
  }

  lemma {:induction false} PowerNonzero<T(!new)>(f: Field<T>, b: T, e: nat)
    requires IsField(f) && b != f.zero
    ensures Power(f, b, e) != f.zero
  {
    hide IsField;
    if e == 0 {
      ZeroNotOne(f);
    } else {
      PowerNonzero(f, b, e - 1);
      if f.mul(Power(f, b, e - 1), b) == f.zero {
        NoZeroDivisors(f, Power(f, b, e - 1), b);
      }
    }
  }
}
