/** The scalar field Z_R of the pairing groups (fr.Element), for an arbitrary prime R.
    Every field operation is an integer operation followed by Red, so a property of field code is
    proved about plain integers and carried over by congruence. */
module PrimeField {
  import opened NumberTheory

  ghost predicate IsPrime(p: int) {
    p >= 2 && forall d :: 2 <= d < p ==> !Divides(d, p)
  }

  type Prime = p: int | IsPrime(p) witness 2

  /** The group order. Left open: everything below holds for each prime. */
  const R: Prime

  type Elem = x: int | 0 <= x < R witness 0

  function Red(x: int): Elem { x % R }

  function Add(a: Elem, b: Elem): Elem { Red(a + b) }
  function Sub(a: Elem, b: Elem): Elem { Red(a - b) }
  function Neg(a: Elem): Elem { Red(0 - a) }
  function Mul(a: Elem, b: Elem): Elem { Red(a * b) }

  /** fr.Element.Inverse: the inverse of zero is zero. */
  function Inv(a: Elem): Elem {
    if a == 0 then 0 else Red(Bezout(a, R).0)
  }

  ghost predicate Cong(a: int, b: int) { Red(a) == Red(b) }

  lemma CongIntro(a: int, b: int, k: int)
    requires a == b + k * R
    ensures Cong(a, b)
  {
    assert b == R * (b / R) + b % R;
    assert (b / R + k) * R == R * (b / R) + k * R;
    ModUnique(a, R, b / R + k, b % R);
  }

  lemma CongElim(a: int, b: int) returns (k: int)
    requires Cong(a, b)
    ensures a == b + k * R
  {
    k := a / R - b / R;
    assert a == R * (a / R) + a % R && b == R * (b / R) + b % R;
    assert k * R == R * (a / R) - R * (b / R);
  }

  lemma CongRed(x: int)
    ensures Cong(Red(x), x)
  {
    assert x == R * (x / R) + x % R;
    assert Red(x) == x + (-(x / R)) * R by { assert (-(x / R)) * R == -(R * (x / R)); }
    CongIntro(Red(x), x, -(x / R));
  }

  lemma RedElem(x: Elem)
    ensures Red(x) == x
  {
    ModUnique(x, R, 0, x);
  }

  lemma CongElems(a: Elem, b: Elem)
    ensures Cong(a, b) <==> a == b
  {
    RedElem(a);
    RedElem(b);
  }

  lemma CongAdd(a: int, b: int, c: int, d: int)
    requires Cong(a, b) && Cong(c, d)
    ensures Cong(a + c, b + d)
  {
    var i := CongElim(a, b);
    var j := CongElim(c, d);
    assert (i + j) * R == i * R + j * R;
    CongIntro(a + c, b + d, i + j);
  }

  lemma CongMul(a: int, b: int, c: int, d: int)
    requires Cong(a, b) && Cong(c, d)
    ensures Cong(a * c, b * d)
  {
    var i := CongElim(a, b);
    var j := CongElim(c, d);
    MulOffsets(b, d, i, j, R);
    CongIntro(a * c, b * d, i * d + j * b + i * j * R);
  }

  lemma MulOffsets(b: int, d: int, i: int, j: int, r: int)
    ensures (b + i * r) * (d + j * r) == b * d + (i * d + j * b + i * j * r) * r
  {
    calc {
      (b + i * r) * (d + j * r);
      b * d + b * (j * r) + (i * r) * d + (i * r) * (j * r);
      { assert b * (j * r) == (j * b) * r && (i * r) * d == (i * d) * r; }
      b * d + (j * b) * r + (i * d) * r + (i * r) * (j * r);
      { assert (i * r) * (j * r) == (i * j * r) * r; }
      b * d + (j * b) * r + (i * d) * r + (i * j * r) * r;
      b * d + (i * d + j * b + i * j * r) * r;
    }
  }

  lemma CongScale(k: int, a: int, b: int)
    requires Cong(a, b)
    ensures Cong(k * a, k * b)
  {
    CongMul(k, k, a, b);
  }

  lemma CongSub(a: int, b: int, c: int, d: int)
    requires Cong(a, b) && Cong(c, d)
    ensures Cong(a - c, b - d)
  {
    CongScale(-1, c, d);
    CongAdd(a, b, -1 * c, -1 * d);
  }

  /** Reducing early or late makes no difference. */
  lemma AddRed(x: int, y: int)
    ensures Add(Red(x), Red(y)) == Red(x + y)
  {
    CongRed(x);
    CongRed(y);
    CongAdd(Red(x), x, Red(y), y);
  }

  lemma MulRed(x: int, y: int)
    ensures Mul(Red(x), Red(y)) == Red(x * y)
  {
    CongRed(x);
    CongRed(y);
    CongMul(Red(x), x, Red(y), y);
  }

  /** A nonzero field element times its inverse is one. */
  lemma InverseLaw(a: Elem)
    requires a != 0
    ensures Cong(a * Inv(a), 1)
  {
    var g := Gcd(a, R);
    GcdDivides(a, R);
    var u, v := Bezout(a, R).0, Bezout(a, R).1;
    var i := Quotient(g, a);
    NonzeroMultiple(i, g);
    assert a * u == 1 + (-v) * R by { assert (-v) * R == -(R * v); }
    CongIntro(a * u, 1, -v);
    CongRed(u);
    CongMul(a, a, Red(u), u);
  }

  /** Multiplication by something nonzero can be cancelled; so Z_R has no zero divisors. */
  lemma Cancel(u: int, v: int, d: int)
    requires Cong(u * d, v * d) && !Cong(d, 0)
    ensures Cong(u, v)
  {
    var e := Red(d);
    RedElem(0);
    assert e != 0;
    InverseLaw(e);
    CongRed(d);
    CongMul(e, d, Inv(e), Inv(e));
    assert Cong(d * Inv(e), 1);
    CongMul(u * d, v * d, Inv(e), Inv(e));
    assert u * d * Inv(e) == u * (d * Inv(e)) && v * d * Inv(e) == v * (d * Inv(e));
    CongScale(u, d * Inv(e), 1);
    CongScale(v, d * Inv(e), 1);
  }

  lemma ProductNonzero(a: int, b: int)
    requires !Cong(a, 0) && !Cong(b, 0)
    ensures !Cong(a * b, 0)
  {
    if Cong(a * b, 0) {
      assert 0 * b == 0;
      Cancel(a, 0, b);
    }
  }

  lemma DifferentElemsDiffer(a: Elem, b: Elem)
    requires a != b
    ensures !Cong(a - b, 0)
  {
    if Cong(a - b, 0) {
      CongAdd(a - b, 0, b, b);
      CongElems(a, b);
    }
  }
}
