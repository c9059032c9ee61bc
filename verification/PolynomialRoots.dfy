/**
 Polynomials over GF(2^61 - 1) through given points: there is one with as many coefficients as
 points, and only one.
 */
module PolynomialRoots {
  import opened PrimeField
  import opened Interpolation

  ghost predicate AllZero(c: seq<int>) {
    forall j :: 0 <= j < |c| ==> Cong(c[j], 0)
  }

  lemma CancelFactor(a: int, x: int)
    requires a % P != 0 && Cong(a * x, 0)
    ensures Cong(x, 0)
  {
    var i := Inverse(a);
    InverseIsInverse(a);
    CongRefl(i);
    CongMul(i, i, a * x, 0);
    CongDrop(a * i, x);
    Associate(i, a, x);
    assert a * i == i * a;
    CongSym(a * i * x, x);
    CongTrans(x, a * i * x, 0);
  }

  // ---------------------------------------------------------------- at most one

  /** The quotient of c by X - r. */
  function Quotiented(c: seq<int>, r: int): (q: seq<int>)
    ensures |q| == if c == [] then 0 else |c| - 1
  {
    if |c| <= 1 then [] else [Poly(c[1..], r)] + Quotiented(c[1..], r)
  }

  lemma {:induction false} Division(c: seq<int>, r: int, x: int)
    ensures Poly(c, x) - Poly(c, r) == (x - r) * Poly(Quotiented(c, r), x)
  {
    if |c| <= 1 {
      assert |c| == 1 ==> c[1..] == [];
    } else {
      var q, t := Quotiented(c, r), c[1..];
      Division(t, r, x);
      assert q[1..] == Quotiented(t, r);
      DivisionStep(x, r, Poly(t, x), Poly(t, r), Poly(Quotiented(t, r), x));
    }
  }

  lemma DivisionStep(x: int, r: int, a: int, b: int, q: int)
    requires a - b == (x - r) * q
    ensures x * a - r * b == (x - r) * (b + x * q)
  {
    assert x * (a - b) == x * ((x - r) * q);
    assert (x - r) * (b + x * q) == (x - r) * b + (x - r) * (x * q);
    assert x * ((x - r) * q) == (x - r) * (x * q);
  }

  lemma {:induction false} ZeroFromQuotient(c: seq<int>, r: int)
    requires Cong(Poly(c, r), 0) && AllZero(Quotiented(c, r))
    ensures AllZero(c)
  {
    if c != [] {
      var t := c[1..];
      if |c| == 1 {
        assert Poly(c, r) == c[0] + r * Poly(t, r) && Poly(t, r) == 0;
      } else {
        var q := Quotiented(c, r);
        assert q[0] == Poly(t, r) && q[1..] == Quotiented(t, r);
        assert AllZero(Quotiented(t, r)) by {
          assert forall j :: 0 <= j < |q[1..]| ==> q[1..][j] == q[j + 1];
        }
        ZeroFromQuotient(t, r);
        LeadingZero(c[0], r, Poly(t, r));
        assert forall j :: 1 <= j < |c| ==> c[j] == t[j - 1];
      }
    }
  }

  lemma LeadingZero(a: int, r: int, t: int)
    requires Cong(a + r * t, 0) && Cong(t, 0)
    ensures Cong(a, 0)
  {
    CongRefl(-r);
    CongMul(-r, -r, t, 0);
    CongAdd(a + r * t, 0, -r * t, -r * 0);
    assert -r * t == -(r * t);
  }

  /** One root divided out. */
  lemma RootOfQuotient(c: seq<int>, r: int, x: int)
    requires Cong(Poly(c, r), 0) && Cong(Poly(c, x), 0) && Apart(r, x)
    ensures Cong(Poly(Quotiented(c, r), x), 0)
  {
    Division(c, r, x);
    CongRefl(-1);
    CongMul(-1, -1, Poly(c, r), 0);
    CongAdd(Poly(c, x), 0, -1 * Poly(c, r), -1 * 0);
    ApartSymmetric(r, x);
    CancelFactor(x - r, Poly(Quotiented(c, r), x));
  }

  /** A polynomial with as many different roots as coefficients is zero. */
  lemma {:induction false} RootsForceZero(c: seq<int>, xs: seq<int>)
    requires |c| <= |xs| && Distinct(xs) && forall i :: 0 <= i < |xs| ==> Cong(Poly(c, xs[i]), 0)
    ensures AllZero(c)
    decreases |c|
  {
    if c != [] {
      var r, q, rest := xs[0], Quotiented(c, xs[0]), xs[1..];
      forall i | 0 <= i < |rest|
        ensures Cong(Poly(q, rest[i]), 0)
      {
        assert rest[i] == xs[i + 1];
        RootOfQuotient(c, r, xs[i + 1]);
      }
      assert Distinct(rest) by {
        assert forall i :: 0 <= i < |rest| ==> rest[i] == xs[i + 1];
      }
      RootsForceZero(q, rest);
      ZeroFromQuotient(c, r);
    }
  }

  function Minus(c: seq<int>, d: seq<int>): (r: seq<int>)
    requires |c| == |d|
    ensures |r| == |c| && forall j :: 0 <= j < |c| ==> r[j] == c[j] - d[j]
  {
    seq(|c|, j requires 0 <= j < |c| => c[j] - d[j])
  }

  lemma {:induction false} PolyMinus(c: seq<int>, d: seq<int>, x: int)
    requires |c| == |d|
    ensures Poly(Minus(c, d), x) == Poly(c, x) - Poly(d, x)
  {
    if c != [] {
      PolyMinus(c[1..], d[1..], x);
      assert Minus(c, d)[1..] == Minus(c[1..], d[1..]);
      assert x * (Poly(c[1..], x) - Poly(d[1..], x)) == x * Poly(c[1..], x) - x * Poly(d[1..], x);
    }
  }

  ghost predicate Through(c: seq<int>, xs: seq<int>, ys: seq<int>)
    requires |xs| == |ys|
  {
    forall i :: 0 <= i < |xs| ==> Cong(Poly(c, xs[i]), ys[i])
  }

  /** Polynomials of equal length through the same points, one for each coefficient, agree. */
  lemma OnlyOne(c: seq<int>, d: seq<int>, xs: seq<int>, ys: seq<int>)
    requires |c| == |d| == |xs| == |ys| && Distinct(xs) && Through(c, xs, ys) && Through(d, xs, ys)
    ensures forall j :: 0 <= j < |c| ==> Cong(c[j], d[j])
  {
    var e := Minus(c, d);
    forall i | 0 <= i < |xs|
      ensures Cong(Poly(e, xs[i]), 0)
    {
      PolyMinus(c, d, xs[i]);
      DifferenceZero(Poly(c, xs[i]), Poly(d, xs[i]), ys[i]);
    }
    RootsForceZero(e, xs);
    forall j | 0 <= j < |c|
      ensures Cong(c[j], d[j])
    {
      assert Cong(e[j], 0);
      CongFrom(c[j], d[j], Quotient(e[j], 0));
    }
  }

  lemma DifferenceZero(a: int, b: int, y: int)
    requires Cong(a, y) && Cong(b, y)
    ensures Cong(a - b, 0)
  {
    CongFrom(a - b, 0, Quotient(a, y) - Quotient(b, y));
  }

  // ---------------------------------------------------------------- at least one

  /** The product of c by X - r. */
  function Multiplied(c: seq<int>, r: int): (m: seq<int>)
    ensures |m| == |c| + 1
  {
    if c == [] then [0] else [-r * c[0]] + Raised(Multiplied(c[1..], r), c[0])
  }

  function Raised(c: seq<int>, a: int): (r: seq<int>)
    requires c != []
    ensures |r| == |c|
  {
    [c[0] + a] + c[1..]
  }

  lemma PolyCons(a: int, c: seq<int>, x: int)
    ensures Poly([a] + c, x) == a + x * Poly(c, x)
  {
    assert ([a] + c)[1..] == c;
  }

  lemma PolyRaised(c: seq<int>, a: int, x: int)
    requires c != []
    ensures Poly(Raised(c, a), x) == Poly(c, x) + a
  {
    assert Raised(c, a)[1..] == c[1..];
  }

  lemma {:induction false} PolyMultiplied(c: seq<int>, r: int, x: int)
    ensures Poly(Multiplied(c, r), x) == (x - r) * Poly(c, x)
  {
    if c == [] {
      assert Multiplied(c, r)[1..] == [];
    } else {
      var t := Multiplied(c[1..], r);
      PolyMultiplied(c[1..], r, x);
      PolyCons(-r * c[0], Raised(t, c[0]), x);
      PolyRaised(t, c[0], x);
      MultiplicationStep(x, r, c[0], Poly(c[1..], x));
    }
  }

  lemma MultiplicationStep(x: int, r: int, a: int, p: int)
    ensures -r * a + x * ((x - r) * p + a) == (x - r) * (a + x * p)
  {
    assert x * ((x - r) * p + a) == (x - r) * (x * p) + x * a;
    assert (x - r) * (a + x * p) == (x - r) * a + (x - r) * (x * p);
    assert (x - r) * a == x * a - r * a;
  }

  /** What the rest of the polynomial must take at a point, once (X - r) and the value at r are split off. */
  ghost function Residual(y: int, y0: int, x: int, r: int): int {
    (y - y0) * Inverse(x - r)
  }

  lemma ResidualWorks(y: int, y0: int, x: int, r: int, g: int)
    requires Apart(x, r) && Cong(g, Residual(y, y0, x, r))
    ensures Cong((x - r) * g + y0, y)
  {
    var i := Inverse(x - r);
    CongRefl(x - r);
    CongMul(x - r, x - r, g, (y - y0) * i);
    InverseIsInverse(x - r);
    CongDrop((x - r) * i, y - y0);
    assert (x - r) * ((y - y0) * i) == (x - r) * i * (y - y0);
    CongTrans((x - r) * g, (x - r) * i * (y - y0), y - y0);
    CongRefl(y0);
    CongAdd((x - r) * g, y - y0, y0, y0);
  }

  /** There is a polynomial through any points with different abscissae. */
  lemma {:induction false} SomeThrough(xs: seq<int>, ys: seq<int>) returns (c: seq<int>)
    requires |xs| == |ys| && Distinct(xs)
    ensures |c| == |xs| && Through(c, xs, ys)
  {
    if xs == [] {
      c := [];
    } else {
      var r, y0, rest := xs[0], ys[0], xs[1..];
      var zs := seq(|rest|, i requires 0 <= i < |rest| => Residual(ys[i + 1], y0, xs[i + 1], r));
      assert Distinct(rest) by {
        assert forall i :: 0 <= i < |rest| ==> rest[i] == xs[i + 1];
      }
      var g := SomeThrough(rest, zs);
      var m := Multiplied(g, r);
      c := Raised(m, y0);
      forall i | 0 <= i < |xs|
        ensures Cong(Poly(c, xs[i]), ys[i])
      {
        PolyMultiplied(g, r, xs[i]);
        PolyRaised(m, y0, xs[i]);
        if i == 0 {
          CongRefl(y0);
        } else {
          assert rest[i - 1] == xs[i];
          ApartSymmetric(r, xs[i]);
          ResidualWorks(ys[i], y0, xs[i], r, Poly(g, xs[i]));
        }
      }
    }
  }

  lemma {:induction false} PolyCong(c: seq<int>, d: seq<int>, x: int)
    requires |c| == |d| && forall j :: 0 <= j < |c| ==> Cong(c[j], d[j])
    ensures Cong(Poly(c, x), Poly(d, x))
  {
    if c == [] {
      CongRefl(0);
    } else {
      PolyCong(c[1..], d[1..], x);
      CongRefl(x);
      CongMul(x, x, Poly(c[1..], x), Poly(d[1..], x));
      CongAdd(c[0], d[0], x * Poly(c[1..], x), x * Poly(d[1..], x));
    }
  }
}
