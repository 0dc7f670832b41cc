/**
 * SGI's power algorithm (src/6-3/power.cpp): x combined with itself n
 * times under a monoid operation, by repeated squaring.
 *
 * identity_element is defined for std::plus and std::multiplies only, so
 * power compiles for those two; here they act on unbounded ints.  The
 * exponent has to be non-negative: for a negative one the shifts never
 * reach 0.
 */
module Power {

  /** std::plus<int> and std::multiplies<int>. */
  datatype Operation = Plus | Multiplies

  function Apply(op: Operation, a: int, b: int): int
  {
    match op
    case Plus => a + b
    case Multiplies => a * b
  }

  /** identity_element(op): 0 for plus, 1 for multiplies. */
  function IdentityElement(op: Operation): (e: int)
    ensures forall a :: Apply(op, e, a) == a && Apply(op, a, e) == a
  {
    match op
    case Plus => 0
    case Multiplies => 1
  }

  lemma Associative(op: Operation, a: int, b: int, c: int)
    ensures Apply(op, Apply(op, a, b), c) == Apply(op, a, Apply(op, b, c))
  {
    if op == Multiplies {
      assert (a * b) * c == a * (b * c);
    }
  }

  /** x op x op ... op x with n operands, and the identity for n == 0. */
  function Repeat(op: Operation, x: int, n: nat): int
  {
    if n == 0 then IdentityElement(op) else Apply(op, x, Repeat(op, x, n - 1))
  }

  /** a + b operands are the first a combined with the last b. */
  lemma {:induction false} RepeatAdd(op: Operation, x: int, a: nat, b: nat)
    ensures Repeat(op, x, a + b) == Apply(op, Repeat(op, x, a), Repeat(op, x, b))
  {
    if a > 0 {
      RepeatAdd(op, x, a - 1, b);
      Associative(op, x, Repeat(op, x, a - 1), Repeat(op, x, b));
    }
  }

  /** m operands x op x are 2m operands x. */
  lemma {:induction false} RepeatSquare(op: Operation, x: int, m: nat)
    ensures Repeat(op, Apply(op, x, x), m) == Repeat(op, x, 2 * m)
  {
    if m > 0 {
      var k: nat := 2 * m - 2;
      RepeatSquare(op, x, m - 1);
      assert Repeat(op, x, k + 2) == Apply(op, x, Apply(op, x, Repeat(op, x, k)));
      Associative(op, x, x, Repeat(op, x, k));
    }
  }

  /**
   * power(x, n, op): while n is even, halve it and square x; then keep x as
   * the result and go through the remaining bits of n, squaring x and
   * folding it into the result at every set bit.
   */
  method PowerWith(x: int, n: nat, op: Operation) returns (r: int)
    ensures r == Repeat(op, x, n)
  {
    if n == 0 {
      return IdentityElement(op);
    }
    var base, e: nat := x, n;
    while e % 2 == 0
      invariant e > 0 && Repeat(op, base, e) == Repeat(op, x, n)
      decreases e
    {
      RepeatSquare(op, base, e / 2);
      e := e / 2;
      base := Apply(op, base, base);
    }
    var result := base;
    RepeatAdd(op, base, 1, e - 1);
    RepeatSquare(op, base, e / 2);
    e := e / 2;
    while e != 0
      invariant Apply(op, result, Repeat(op, Apply(op, base, base), e)) == Repeat(op, x, n)
      decreases e
    {
      base := Apply(op, base, base);
      RepeatSquare(op, base, e / 2);
      if e % 2 != 0 {
        RepeatAdd(op, base, 1, e - 1);
        Associative(op, result, base, Repeat(op, Apply(op, base, base), e / 2));
        result := Apply(op, result, base);
      }
      e := e / 2;
    }
    r := result;
  }

  /** x to the power n, the reference definition. */
  function Pow(x: int, n: nat): int
  {
    if n == 0 then 1 else x * Pow(x, n - 1)
  }

  /** Repeated multiplication is Pow and repeated addition is n * x. */
  lemma {:induction false} RepeatClosedForm(x: int, n: nat)
    ensures Repeat(Multiplies, x, n) == Pow(x, n)
    ensures Repeat(Plus, x, n) == n * x
  {
    if n > 0 {
      RepeatClosedForm(x, n - 1);
    }
  }

  /** power(x, n): power with std::multiplies, x to the power n. */
  method PowerOf(x: int, n: nat) returns (r: int)
    ensures r == Pow(x, n)
  {
    r := PowerWith(x, n, Multiplies);
    RepeatClosedForm(x, n);
  }

  /** Pow adds exponents, the law the squaring loop relies on. */
  lemma PowAdd(x: int, a: nat, b: nat)
    ensures Pow(x, a + b) == Pow(x, a) * Pow(x, b)
  {
    RepeatAdd(Multiplies, x, a, b);
    RepeatClosedForm(x, a);
    RepeatClosedForm(x, b);
    RepeatClosedForm(x, a + b);
  }

  /** power(2, 8) with multiplies is 256. */
  method PowerExample() returns (r: int)
    ensures r == 256
  {
    r := PowerOf(2, 8);
  }
}
