/**
 Lagrange interpolation at zero over GF(2^61 - 1).

 The main result, InterpolatesAtZero, says that the sum the code computes from the
 values of a polynomial at enough distinct nonzero points is the polynomial's constant
 term. It is proved through divided differences: the difference of a polynomial over
 more nodes than it has coefficients is zero, and adding the node 0 to the given points
 turns that into the interpolation formula.
 */
module Interpolation {
  import opened PrimeField

  ghost predicate Apart(a: int, b: int) {
    (a - b) % P != 0
  }

  ghost predicate Distinct(xs: seq<int>) {
    forall i, j :: 0 <= i < j < |xs| ==> Apart(xs[i], xs[j])
  }

  function Poly(c: seq<int>, x: int): int {
    if c == [] then 0 else c[0] + x * Poly(c[1..], x)
  }

  function Product(xs: seq<int>): int {
    if xs == [] then 1 else xs[0] * Product(xs[1..])
  }

  /** The product of y - x over the nodes y. */
  function Differences(nodes: seq<int>, x: int): int {
    if nodes == [] then 1 else (nodes[0] - x) * Differences(nodes[1..], x)
  }

  /** The product of the inverses of y - x over the nodes y. */
  ghost function Weight(nodes: seq<int>, x: int): int {
    if nodes == [] then 1 else Inverse(nodes[0] - x) * Weight(nodes[1..], x)
  }

  /** The part of the divided difference over pre + xs that belongs to the nodes xs. */
  ghost function Divided(pre: seq<int>, xs: seq<int>, ys: seq<int>): int
    requires |xs| == |ys|
    decreases |xs|
  {
    if xs == [] then 0
    else ys[0] * (Weight(pre, xs[0]) * Weight(xs[1..], xs[0])) + Divided(pre + [xs[0]], xs[1..], ys[1..])
  }

  // ---------------------------------------------------------------- products

  lemma {:induction false} WeightConcat(l: seq<int>, r: seq<int>, x: int)
    ensures Weight(l + r, x) == Weight(l, x) * Weight(r, x)
  {
    if l == [] {
      assert l + r == r;
    } else {
      WeightConcat(l[1..], r, x);
      assert (l + r)[1..] == l[1..] + r;
      Associate(Inverse(l[0] - x), Weight(l[1..], x), Weight(r, x));
    }
  }

  lemma {:induction false} ProductConcat(l: seq<int>, r: seq<int>)
    ensures Product(l + r) == Product(l) * Product(r)
  {
    if l == [] {
      assert l + r == r;
    } else {
      ProductConcat(l[1..], r);
      assert (l + r)[1..] == l[1..] + r;
      Associate(l[0], Product(l[1..]), Product(r));
    }
  }

  lemma InverseOfDifference(a: int, x: int)
    requires Apart(a, x)
    ensures Cong((a - x) * Inverse(a - x), 1)
  {
    InverseIsInverse(a - x);
  }

  // ---------------------------------------------------------------- divided differences

  /** The divided difference is linear in the values. */
  lemma {:induction false} Linear(pre: seq<int>, xs: seq<int>, us: seq<int>, vs: seq<int>, ws: seq<int>, s: int, t: int)
    requires |xs| == |us| == |vs| == |ws|
    requires forall i :: 0 <= i < |xs| ==> ws[i] == s * us[i] + t * vs[i]
    ensures Divided(pre, xs, ws) == s * Divided(pre, xs, us) + t * Divided(pre, xs, vs)
    decreases |xs|
  {
    if xs != [] {
      var k := Weight(pre, xs[0]) * Weight(xs[1..], xs[0]);
      Linear(pre + [xs[0]], xs[1..], us[1..], vs[1..], ws[1..], s, t);
      TwoSums(s, us[0], t, vs[0], k, Divided(pre + [xs[0]], xs[1..], us[1..]), Divided(pre + [xs[0]], xs[1..], vs[1..]));
    }
  }

  lemma TwoSums(s: int, u: int, t: int, v: int, k: int, a: int, b: int)
    ensures (s * u + t * v) * k + (s * a + t * b) == s * (u * k + a) + t * (v * k + b)
  {
    assert (s * u + t * v) * k == s * (u * k) + t * (v * k);
  }

  /** A node a may be dropped once every value carries the factor a - x. */
  lemma {:induction false} DropNode(l: seq<int>, a: int, r: seq<int>, xs: seq<int>, ys: seq<int>, zs: seq<int>)
    requires |xs| == |ys| == |zs|
    requires forall i :: 0 <= i < |xs| ==> Apart(a, xs[i]) && zs[i] == (a - xs[i]) * ys[i]
    ensures Cong(Divided(l + [a] + r, xs, zs), Divided(l + r, xs, ys))
    decreases |xs|
  {
    if xs == [] {
      CongRefl(0);
    } else {
      var x, y, w := xs[0], ys[0], Weight(xs[1..], xs[0]);
      DropNodeTerm(l, a, r, x, y, w);
      DropNode(l, a, r + [x], xs[1..], ys[1..], zs[1..]);
      assert l + [a] + r + [x] == l + [a] + (r + [x]);
      assert l + r + [x] == l + (r + [x]);
      CongAdd(zs[0] * (Weight(l + [a] + r, x) * w), y * (Weight(l + r, x) * w),
              Divided(l + [a] + (r + [x]), xs[1..], zs[1..]), Divided(l + (r + [x]), xs[1..], ys[1..]));
    }
  }

  lemma DropNodeTerm(l: seq<int>, a: int, r: seq<int>, x: int, y: int, w: int)
    requires Apart(a, x)
    ensures Cong((a - x) * y * (Weight(l + [a] + r, x) * w), y * (Weight(l + r, x) * w))
  {
    var i, u, v := Inverse(a - x), Weight(l, x), Weight(r, x);
    WeightConcat(l + [a], r, x);
    WeightConcat(l, [a], x);
    WeightConcat(l, r, x);
    WeightOne(a, x);
    InverseOfDifference(a, x);
    CongDrop((a - x) * i, y * (u * v * w));
    PullFactor(a - x, i, y, u, v, w);
  }

  lemma WeightOne(a: int, x: int)
    ensures Weight([a], x) == Inverse(a - x)
  {
    assert [a][1..] == [];
    assert Weight([], x) == 1;
  }

  lemma PullFactor(d: int, i: int, y: int, u: int, v: int, w: int)
    ensures d * y * (u * i * v * w) == (d * i) * (y * (u * v * w))
  {
    calc {
      d * y * (u * i * v * w);
      { assert u * i * v * w == i * (u * v * w); }
      d * y * (i * (u * v * w));
      (d * i) * (y * (u * v * w));
    }
  }

  ghost function Ones(n: nat): seq<int> {
    seq(n, _ => 1)
  }

  /** The values a - x over the nodes x. */
  ghost function Offsets(a: int, xs: seq<int>): seq<int> {
    seq(|xs|, i requires 0 <= i < |xs| => a - xs[i])
  }

  lemma {:induction false} ScaleOnes(a: int, b: int, xs: seq<int>)
    ensures (a - b) * Divided([], xs, Ones(|xs|)) == Divided([], xs, Offsets(a, xs)) - Divided([], xs, Offsets(b, xs))
  {
    var ds := seq(|xs|, _ => a - b);
    Linear([], xs, Offsets(a, xs), Offsets(b, xs), ds, 1, -1);
    Linear([], xs, Ones(|xs|), Ones(|xs|), ds, a - b, 0);
  }

  lemma OffsetsFirst(xs: seq<int>)
    requires |xs| >= 2 && Distinct(xs)
    ensures Cong(Divided([], xs, Offsets(xs[0], xs)), Divided([], xs[1..], Ones(|xs| - 1)))
  {
    var a, us := xs[0], Offsets(xs[0], xs);
    assert us[0] == 0;
    DropNode([], a, [], xs[1..], Ones(|xs| - 1), us[1..]);
    assert [] + [a] + [] == [a] && [] + [a] == [a];
    var e: seq<int> := [];
    assert e + [] == e;
  }

  /** Two steps of the sum when the second value is zero. */
  lemma {:induction false} UnfoldTwo(a: int, b: int, rest: seq<int>, y: int, ys: seq<int>)
    requires |rest| == |ys|
    ensures Divided([], [a] + ([b] + rest), [y] + ([0] + ys))
         == y * (Inverse(b - a) * Weight(rest, a)) + Divided([a] + [b], rest, ys)
  {
    var e: seq<int> := [];
    var xs, us := [b] + rest, [0] + ys;
    assert xs[0] == b && xs[1..] == rest && us[0] == 0 && us[1..] == ys;
    assert ([a] + xs)[1..] == xs && ([y] + us)[1..] == us && e + [a] == [a];
    assert Divided([a], xs, us) == Divided([a] + [b], rest, ys);
    assert Weight(xs, a) == Inverse(b - a) * Weight(rest, a);
  }

  lemma UnfoldOne(a: int, rest: seq<int>)
    ensures Divided([], [a] + rest, Ones(|rest| + 1)) == Weight(rest, a) + Divided([a], rest, Ones(|rest|))
  {
    var e: seq<int> := [];
    assert ([a] + rest)[1..] == rest && Ones(|rest| + 1)[1..] == Ones(|rest|) && e + [a] == [a];
  }

  lemma SecondWeight(a: int, b: int, w: int)
    requires Apart(a, b)
    ensures Cong((b - a) * (Inverse(b - a) * w), w)
  {
    ApartSymmetric(a, b);
    InverseOfDifference(b, a);
    CongDrop((b - a) * Inverse(b - a), w);
    Associate(b - a, Inverse(b - a), w);
  }

  lemma OffsetsSplit(a: int, b: int, rest: seq<int>)
    ensures Offsets(b, [a] + ([b] + rest)) == [b - a] + ([0] + Offsets(b, rest))
  {
  }

  lemma DropSecond(a: int, b: int, rest: seq<int>)
    requires forall i :: 0 <= i < |rest| ==> Apart(b, rest[i])
    ensures Cong(Divided([a] + [b], rest, Offsets(b, rest)), Divided([a], rest, Ones(|rest|)))
  {
    DropNode([a], b, [], rest, Ones(|rest|), Offsets(b, rest));
    assert [a] + [b] + [] == [a] + [b] && [a] + [] == [a];
  }

  lemma {:induction false} OffsetsSecond(a: int, b: int, rest: seq<int>)
    requires Apart(a, b) && forall i :: 0 <= i < |rest| ==> Apart(b, rest[i])
    ensures Cong(Divided([], [a] + ([b] + rest), Offsets(b, [a] + ([b] + rest))),
                 Divided([], [a] + rest, Ones(|rest| + 1)))
  {
    OffsetsSplit(a, b, rest);
    UnfoldTwo(a, b, rest, b - a, Offsets(b, rest));
    UnfoldOne(a, rest);
    DropSecond(a, b, rest);
    SecondWeight(a, b, Weight(rest, a));
    CongAdd((b - a) * (Inverse(b - a) * Weight(rest, a)), Weight(rest, a),
            Divided([a] + [b], rest, Offsets(b, rest)), Divided([a], rest, Ones(|rest|)));
  }

  lemma CancelDifference(a: int, b: int, d: int)
    requires Apart(a, b) && Cong((a - b) * d, 0)
    ensures Cong(d, 0)
  {
    var k := Inverse(a - b);
    InverseOfDifference(a, b);
    CongDrop((a - b) * k, d);
    CongSym((a - b) * k * d, d);
    CongRefl(k);
    CongMul(k, k, (a - b) * d, 0);
    assert k * ((a - b) * d) == (a - b) * k * d;
    CongTrans(d, (a - b) * k * d, 0);
  }

  lemma SingleNode(x: int)
    ensures Divided([], [x], Ones(1)) == 1
  {
    assert [x][1..] == [] && Ones(1)[1..] == [];
  }

  /** The divided difference of a constant over two nodes or more is zero. */
  lemma {:induction false} ConstantVanishes(xs: seq<int>)
    requires |xs| >= 2 && Distinct(xs)
    ensures Cong(Divided([], xs, Ones(|xs|)), 0)
    decreases |xs|
  {
    var a, b, n := xs[0], xs[1], |xs|;
    var tail, skip := xs[1..], [a] + xs[2..];
    ScaleOnes(a, b, xs);
    OffsetsFirst(xs);
    assert xs == [a] + ([b] + xs[2..]);
    OffsetsSecond(a, b, xs[2..]);
    var du, dv := Divided([], tail, Ones(n - 1)), Divided([], skip, Ones(n - 1));
    assert Cong(du, dv) by {
      if n == 2 {
        assert tail == [b] && skip == [a];
        SingleNode(a);
        SingleNode(b);
        CongRefl(1);
      } else {
        ConstantVanishes(tail);
        ConstantVanishes(skip);
        CongSym(dv, 0);
        CongTrans(du, 0, dv);
      }
    }
    var eu, ev := Divided([], xs, Offsets(a, xs)), Divided([], xs, Offsets(b, xs));
    CongTrans(eu, du, dv);
    CongSym(ev, dv);
    CongTrans(eu, dv, ev);
    SubtractCong(eu, ev);
    CancelDifference(a, b, Divided([], xs, Ones(n)));
  }

  lemma SubtractCong(a: int, b: int)
    requires Cong(a, b)
    ensures Cong(a - b, 0)
  {
    CongFrom(a - b, 0, Quotient(a, b));
  }

  ghost predicate ValuesOf(c: seq<int>, xs: seq<int>, ys: seq<int>) {
    && |xs| == |ys|
    && forall i :: 0 <= i < |xs| ==> ys[i] == Poly(c, xs[i])
  }

  /** The divided difference of a polynomial over more nodes than coefficients is zero. */
  lemma {:induction false} PolynomialVanishes(c: seq<int>, xs: seq<int>, ys: seq<int>)
    requires |c| < |xs| && Distinct(xs) && ValuesOf(c, xs, ys)
    ensures Cong(Divided([], xs, ys), 0)
    decreases |c|
  {
    if c == [] {
      Linear([], xs, ys, ys, ys, 0, 0);
      CongRefl(0);
    } else {
      var a, n := xs[0], |xs|;
      var gs := seq(n, i requires 0 <= i < n => Poly(c[1..], xs[i]));
      var us := seq(n, i requires 0 <= i < n => (a - xs[i]) * gs[i]);
      var vs := seq(n, i requires 0 <= i < n => xs[i] * gs[i]);
      assert forall i :: 0 <= i < n ==> vs[i] == a * gs[i] + -1 * us[i] by {
        forall i | 0 <= i < n
          ensures vs[i] == a * gs[i] + -1 * us[i]
        {
          assert (a - xs[i]) * gs[i] == a * gs[i] - xs[i] * gs[i];
        }
      }
      Linear([], xs, gs, us, vs, a, -1);
      Linear([], xs, Ones(n), vs, ys, c[0], 1);
      ConstantVanishes(xs);
      PolynomialVanishes(c[1..], xs, gs);
      assert Cong(Divided([], xs, us), 0) by {
        PolynomialVanishes(c[1..], xs[1..], gs[1..]);
        DropFirst(xs, gs, us);
        CongTrans(Divided([], xs, us), Divided([], xs[1..], gs[1..]), 0);
      }
      ThreeZeros(c[0], Divided([], xs, Ones(n)), a, Divided([], xs, gs), Divided([], xs, us));
    }
  }

  lemma DropFirst(xs: seq<int>, ys: seq<int>, zs: seq<int>)
    requires |xs| == |ys| == |zs| > 0 && Distinct(xs)
    requires forall i :: 0 <= i < |xs| ==> zs[i] == (xs[0] - xs[i]) * ys[i]
    ensures Cong(Divided([], xs, zs), Divided([], xs[1..], ys[1..]))
  {
    var a := xs[0];
    assert zs[0] == 0;
    DropNode([], a, [], xs[1..], ys[1..], zs[1..]);
    var e: seq<int> := [];
    assert e + [a] + [] == [a] && e + [a] == [a] && e + [] == e;
  }

  lemma ThreeZeros(s: int, a: int, t: int, b: int, c: int)
    requires Cong(a, 0) && Cong(b, 0) && Cong(c, 0)
    ensures Cong(s * a + 1 * (t * b + -1 * c), 0)
  {
    CongRefl(s);
    CongRefl(t);
    CongRefl(-1);
    CongMul(s, s, a, 0);
    CongMul(t, t, b, 0);
    CongMul(-1, -1, c, 0);
    CongAdd(t * b, 0, -1 * c, 0);
    CongAdd(s * a, 0, t * b + -1 * c, 0);
  }

  // ---------------------------------------------------------------- the value at zero

  /** The code's weight of a point x among the other points, at zero. */
  ghost function Coefficient(others: seq<int>, x: int): int {
    Product(others) * Inverse(Differences(others, x))
  }

  /** The terms of the points xs when pre are the points before them. */
  ghost function Lagrange(pre: seq<int>, xs: seq<int>, ys: seq<int>): int
    requires |xs| == |ys|
    decreases |xs|
  {
    if xs == [] then 0
    else ys[0] * Coefficient(pre + xs[1..], xs[0]) + Lagrange(pre + [xs[0]], xs[1..], ys[1..])
  }

  lemma {:induction false} WeightInvertsDifferences(nodes: seq<int>, x: int)
    requires forall i :: 0 <= i < |nodes| ==> Apart(nodes[i], x)
    ensures Cong(Differences(nodes, x) * Weight(nodes, x), 1)
  {
    if nodes == [] {
      CongRefl(1);
    } else {
      var a := nodes[0];
      WeightInvertsDifferences(nodes[1..], x);
      InverseOfDifference(a, x);
      var d, w := Differences(nodes[1..], x), Weight(nodes[1..], x);
      CongMul((a - x) * Inverse(a - x), 1, d * w, 1);
      Regroup(a - x, Inverse(a - x), d, w);
    }
  }

  /** One inverse of the product of differences is as good as a product of inverses. */
  lemma InverseIsWeight(nodes: seq<int>, x: int)
    requires forall i :: 0 <= i < |nodes| ==> Apart(nodes[i], x)
    ensures Cong(Weight(nodes, x), Inverse(Differences(nodes, x)))
  {
    var d := Differences(nodes, x);
    WeightInvertsDifferences(nodes, x);
    assert d % P != 0 by {
      if d % P == 0 {
        CongMod(d, 0);
        CongRefl(Weight(nodes, x));
        CongMul(d, 0, Weight(nodes, x), Weight(nodes, x));
        CongMod(d * Weight(nodes, x), 0);
        CongMod(d * Weight(nodes, x), 1);
      }
    }
    InverseIsInverse(d);
    InverseUnique(d, Weight(nodes, x), Inverse(d));
  }

  ghost predicate NonZero(xs: seq<int>) {
    forall i :: 0 <= i < |xs| ==> xs[i] % P != 0
  }

  lemma {:induction false} ProductInvertsWeight(xs: seq<int>)
    requires NonZero(xs)
    ensures Cong(Product(xs) * Weight(xs, 0), 1)
  {
    if xs == [] {
      CongRefl(1);
    } else {
      var x := xs[0];
      ProductInvertsWeight(xs[1..]);
      InverseIsInverse(x);
      CongMul(x * Inverse(x), 1, Product(xs[1..]) * Weight(xs[1..], 0), 1);
      Regroup(x, Inverse(x), Product(xs[1..]), Weight(xs[1..], 0));
    }
  }

  lemma NegatedInverse(x: int)
    requires x % P != 0
    ensures Cong(x * Inverse(0 - x), -1)
  {
    InverseIsInverse(0 - x);
    NegateBoth(x, Inverse(0 - x));
  }

  lemma NegateBoth(x: int, i: int)
    requires Cong((0 - x) * i, 1)
    ensures Cong(x * i, -1)
  {
    assert (0 - x) * i == -(x * i);
    CongFrom(x * i, -1, -Quotient((0 - x) * i, 1));
  }

  /** One term: multiplying by all points turns a divided-difference term into minus the code's term. */
  lemma LagrangeTerm(pre: seq<int>, x: int, rest: seq<int>, y: int)
    requires x % P != 0
    requires forall i :: 0 <= i < |pre + rest| ==> Apart((pre + rest)[i], x)
    ensures Cong(Product(pre + [x] + rest) * (y * (Weight([0] + pre, x) * Weight(rest, x))),
                 -1 * (y * Coefficient(pre + rest, x)))
  {
    var q, w, k := Product(pre + rest), Weight(pre + rest, x), Inverse(0 - x);
    assert Product(pre + [x] + rest) == x * q by {
      ProductConcat(pre + [x], rest);
      ProductConcat(pre, [x]);
      ProductConcat(pre, rest);
      assert [x][1..] == [];
      assert Product([x]) == x * Product([]) == x;
      Reorder(Product(pre), x, Product(rest));
    }
    assert Weight([0] + pre, x) * Weight(rest, x) == k * w by {
      assert ([0] + pre)[0] == 0 && ([0] + pre)[1..] == pre;
      WeightConcat(pre, rest, x);
      Associate(k, Weight(pre, x), Weight(rest, x));
    }
    NegatedInverse(x);
    InverseIsWeight(pre + rest, x);
    CongRefl(y * q);
    CongMul(y * q, y * q, w, Inverse(Differences(pre + rest, x)));
    CongMul(x * k, -1, y * q * w, y * q * Inverse(Differences(pre + rest, x)));
    SplitTerm(x, q, y, k, w);
    Associate(y, q, Inverse(Differences(pre + rest, x)));
  }

  lemma Reorder(a: int, x: int, b: int)
    ensures a * x * b == x * (a * b)
  {
  }

  lemma SplitTerm(x: int, q: int, y: int, k: int, w: int)
    ensures x * q * (y * (k * w)) == (x * k) * (y * q * w)
  {
    calc {
      x * q * (y * (k * w));
      { assert y * (k * w) == k * (y * w); }
      x * q * (k * (y * w));
      { assert x * q * (k * (y * w)) == (x * k) * (q * (y * w)); }
      (x * k) * (q * (y * w));
      { assert q * (y * w) == y * q * w; }
      (x * k) * (y * q * w);
    }
  }

  lemma OthersApart(pre: seq<int>, x: int, rest: seq<int>)
    requires Distinct(pre + [x] + rest)
    ensures forall i :: 0 <= i < |pre + rest| ==> Apart((pre + rest)[i], x)
  {
    var all := pre + [x] + rest;
    forall i | 0 <= i < |pre + rest|
      ensures Apart((pre + rest)[i], x)
    {
      var j := if i < |pre| then i else i + 1;
      assert all[j] == (pre + rest)[i] && all[|pre|] == x;
      ApartSymmetric(all[j], x);
    }
  }

  lemma AddTerms(q: int, t: int, d: int, u: int, v: int)
    requires Cong(q * t, -1 * u) && Cong(q * d, -1 * v)
    ensures Cong(q * (t + d), -1 * (u + v))
  {
    CongAdd(q * t, -1 * u, q * d, -1 * v);
    assert q * t + q * d == q * (t + d);
  }

  lemma {:induction false} LagrangeFromDivided(pre: seq<int>, xs: seq<int>, ys: seq<int>)
    requires |xs| == |ys| && Distinct(pre + xs) && NonZero(pre + xs)
    ensures Cong(Product(pre + xs) * Divided([0] + pre, xs, ys), -1 * Lagrange(pre, xs, ys))
    decreases |xs|
  {
    if xs == [] {
      CongRefl(0);
    } else {
      var x, rest, y := xs[0], xs[1..], ys[0];
      assert pre + xs == pre + [x] + rest;
      assert x == (pre + xs)[|pre|];
      OthersApart(pre, x, rest);
      LagrangeTerm(pre, x, rest, y);
      LagrangeFromDivided(pre + [x], rest, ys[1..]);
      assert [0] + (pre + [x]) == [0] + pre + [x];
      AddTerms(Product(pre + xs),
               y * (Weight([0] + pre, x) * Weight(rest, x)), Divided([0] + pre + [x], rest, ys[1..]),
               y * Coefficient(pre + rest, x), Lagrange(pre + [x], rest, ys[1..]));
    }
  }

  lemma ApartSymmetric(a: int, b: int)
    ensures Apart(a, b) <==> Apart(b, a)
  {
  }

  /** The code's interpolation sum over the values of a polynomial is its constant term. */
  lemma InterpolatesAtZero(c: seq<int>, xs: seq<int>, ys: seq<int>)
    requires 0 < |c| <= |xs| && Distinct(xs) && NonZero(xs) && ValuesOf(c, xs, ys)
    ensures Cong(Lagrange([], xs, ys), c[0])
  {
    var nodes, values := [0] + xs, [c[0]] + ys;
    var e: seq<int> := [];
    assert Distinct(nodes) by {
      forall i, j | 0 <= i < j < |nodes|
        ensures Apart(nodes[i], nodes[j])
      {
        if i == 0 {
          ApartSymmetric(nodes[j], 0);
          assert nodes[j] == xs[j - 1];
        } else {
          assert nodes[i] == xs[i - 1] && nodes[j] == xs[j - 1];
        }
      }
    }
    PolynomialVanishes(c, nodes, values);
    var q, w, d, s := Product(xs), Weight(xs, 0), Divided([0], xs, ys), Lagrange([], xs, ys);
    assert Divided([], nodes, values) == c[0] * (1 * w) + d by {
      assert nodes[1..] == xs && values[1..] == ys && e + [0] == [0];
    }
    ProductInvertsWeight(xs);
    LagrangeFromDivided([], xs, ys);
    assert e + xs == xs && [0] + e == [0];
    SolveForConstant(c[0], q, w, d, s);
  }

  lemma SolveForConstant(c: int, q: int, w: int, d: int, s: int)
    requires Cong(c * (1 * w) + d, 0) && Cong(q * w, 1) && Cong(q * d, -1 * s)
    ensures Cong(s, c)
  {
    CongRefl(q);
    CongMul(q, q, c * (1 * w) + d, 0);
    assert q * (c * (1 * w) + d) == (q * w) * c + q * d;
    CongDrop(q * w, c);
    CongSym((q * w) * c, c);
    CongSym(q * d, -1 * s);
    CongAdd(c, (q * w) * c, -1 * s, q * d);
    CongTrans(c + -1 * s, (q * w) * c + q * d, 0);
    CongFrom(s, c, -Quotient(c + -1 * s, 0));
  }
}
