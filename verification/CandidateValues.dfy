/**
 What one share less than the threshold says about a block. For every value there is exactly one
 polynomial through the shares, so the shares alone exclude nothing; but the splitter never draws
 a zero coefficient, so exactly the values whose polynomial needs one are excluded.
 */
module CandidateValues {
  import opened Common
  import opened PrimeField
  import opened Interpolation
  import opened PolynomialRoots
  import opened Shamir

  /** Different shares of one block. */
  ghost predicate Observation(seen: seq<Share>, b: nat) {
    && (forall i :: 0 <= i < |seen| ==> 1 <= seen[i].x < 0x1_0000_0000 && seen[i].y < P && seen[i].blockIndex == b)
    && (forall i, j :: 0 <= i < j < |seen| ==> seen[i].x != seen[j].x)
  }

  /** Splitting the value v with these random words, at a threshold of one more, deals the shares seen. */
  ghost predicate Deals(draw: Randomness, v: nat, seen: seq<Share>, b: nat) {
    forall i :: 0 <= i < |seen| ==> seen[i] == ShareOf(Coefficients(v, |seen| + 1, b, draw), seen[i].x, b)
  }

  ghost predicate Possible(v: nat, seen: seq<Share>, b: nat) {
    exists draw: Randomness :: Deals(draw, v, seen, b)
  }

  /** A polynomial of the right length with constant term v through the shares. */
  ghost predicate Fits(c: seq<nat>, v: nat, seen: seq<Share>) {
    && |c| == |seen| + 1 && c[0] == v && (forall j :: 0 <= j < |c| ==> c[j] < P)
    && forall i :: 0 <= i < |seen| ==> Poly(c, seen[i].x) % P == seen[i].y
  }

  // ---------------------------------------------------------------- points

  ghost function Abscissae(seen: seq<Share>): (r: seq<int>)
    ensures |r| == |seen| + 1
  {
    [0] + Xs(seen)
  }

  ghost function Ordinates(v: nat, seen: seq<Share>): (r: seq<int>)
    ensures |r| == |seen| + 1
  {
    [v] + Ys(seen)
  }

  lemma PointAt(v: nat, seen: seq<Share>, i: nat)
    requires i <= |seen|
    ensures Abscissae(seen)[i] == if i == 0 then 0 else seen[i - 1].x
    ensures Ordinates(v, seen)[i] == if i == 0 then v else seen[i - 1].y
  {
  }

  lemma SmallApart(x: nat, y: nat)
    requires x < 0x1_0000_0000 && y < 0x1_0000_0000 && x != y
    ensures Apart(x, y)
  {
  }

  lemma DistinctPoints(seen: seq<Share>, b: nat)
    requires Observation(seen, b)
    ensures Distinct(Abscissae(seen))
  {
    var xs := Abscissae(seen);
    forall i, j | 0 <= i < j < |xs|
      ensures Apart(xs[i], xs[j])
    {
      PointAt(0, seen, i);
      PointAt(0, seen, j);
      SmallApart(xs[i], xs[j]);
    }
  }

  lemma AtZero(c: seq<int>)
    requires c != []
    ensures Poly(c, 0) == c[0]
  {
    assert 0 * Poly(c[1..], 0) == 0;
  }

  lemma FitsGoesThrough(c: seq<nat>, v: nat, seen: seq<Share>)
    requires Fits(c, v, seen)
    ensures Through(c, Abscissae(seen), Ordinates(v, seen))
  {
    var xs, ys := Abscissae(seen), Ordinates(v, seen);
    forall i | 0 <= i < |xs|
      ensures Cong(Poly(c, xs[i]), ys[i])
    {
      PointAt(v, seen, i);
      if i == 0 {
        AtZero(c);
        CongRefl(v);
      } else {
        CongResidue(Poly(c, xs[i]));
        CongSym(ys[i], Poly(c, xs[i]));
      }
    }
  }

  lemma ResidueThere(c: seq<int>, xs: seq<int>, ys: seq<int>, i: nat)
    requires |xs| == |ys| && Through(c, xs, ys) && i < |xs| && 0 <= ys[i] < P
    ensures Poly(c, xs[i]) % P == ys[i]
  {
    CongMod(Poly(c, xs[i]), ys[i]);
  }

  lemma ThroughFits(c: seq<nat>, v: nat, seen: seq<Share>, b: nat)
    requires Observation(seen, b) && v < P && |c| == |seen| + 1 && forall j :: 0 <= j < |c| ==> c[j] < P
    requires Through(c, Abscissae(seen), Ordinates(v, seen))
    ensures Fits(c, v, seen)
  {
    AtZero(c);
    PointAt(v, seen, 0);
    ResidueThere(c, Abscissae(seen), Ordinates(v, seen), 0);
    forall i | 0 <= i < |seen|
      ensures Poly(c, seen[i].x) % P == seen[i].y
    {
      PointAt(v, seen, i + 1);
      ResidueThere(c, Abscissae(seen), Ordinates(v, seen), i + 1);
    }
  }

  ghost function Reduced(c: seq<int>): (r: seq<nat>)
    ensures |r| == |c| && forall j :: 0 <= j < |c| ==> r[j] == c[j] % P
  {
    seq(|c|, j requires 0 <= j < |c| => c[j] % P)
  }

  lemma ReducedIsThrough(c: seq<int>, xs: seq<int>, ys: seq<int>)
    requires |xs| == |ys| && Through(c, xs, ys)
    ensures Through(Reduced(c), xs, ys)
  {
    var r := Reduced(c);
    forall j | 0 <= j < |c|
      ensures Cong(r[j], c[j])
    {
      CongResidue(c[j]);
    }
    forall i | 0 <= i < |xs|
      ensures Cong(Poly(r, xs[i]), ys[i])
    {
      PolyCong(r, c, xs[i]);
      CongTrans(Poly(r, xs[i]), Poly(c, xs[i]), ys[i]);
    }
  }

  // ---------------------------------------------------------------- the candidates

  lemma FittingIsUnique(c: seq<nat>, d: seq<nat>, v: nat, seen: seq<Share>, b: nat)
    requires Observation(seen, b) && v < P && Fits(c, v, seen) && Fits(d, v, seen)
    ensures c == d
  {
    FitsGoesThrough(c, v, seen);
    FitsGoesThrough(d, v, seen);
    DistinctPoints(seen, b);
    OnlyOne(c, d, Abscissae(seen), Ordinates(v, seen));
    forall j | 0 <= j < |c|
      ensures c[j] == d[j]
    {
      CongMod(c[j], d[j]);
    }
  }

  /** Whatever the value, exactly one polynomial fits threshold - 1 shares. */
  lemma ExactlyOneFits(v: nat, seen: seq<Share>, b: nat) returns (c: seq<nat>)
    requires Observation(seen, b) && v < P
    ensures Fits(c, v, seen) && forall d :: Fits(d, v, seen) ==> d == c
  {
    var xs, ys := Abscissae(seen), Ordinates(v, seen);
    DistinctPoints(seen, b);
    var raw := SomeThrough(xs, ys);
    ReducedIsThrough(raw, xs, ys);
    c := Reduced(raw);
    ThroughFits(c, v, seen, b);
    forall d | Fits(d, v, seen)
      ensures d == c
    {
      FittingIsUnique(d, c, v, seen, b);
    }
  }

  lemma DealtFits(draw: Randomness, v: nat, seen: seq<Share>, b: nat)
    requires v < P && Deals(draw, v, seen, b)
    ensures Fits(Coefficients(v, |seen| + 1, b, draw), v, seen)
  {
    var c := Coefficients(v, |seen| + 1, b, draw);
    assert forall i :: 0 <= i < |seen| ==> seen[i] == ShareOf(c, seen[i].x, b);
  }

  /** Random words that give the coefficients c. */
  ghost function WordsFor(c: seq<nat>): Randomness {
    (b: nat, j: nat) => if j < |c| then c[j] else 0
  }

  lemma FittingIsDealt(c: seq<nat>, v: nat, seen: seq<Share>, b: nat)
    requires Observation(seen, b) && Fits(c, v, seen) && forall j :: 1 <= j < |c| ==> c[j] != 0
    ensures Deals(WordsFor(c), v, seen, b)
  {
    var d := Coefficients(v, |seen| + 1, b, WordsFor(c));
    assert forall j :: 1 <= j < |c| ==> d[j] == CoefficientAt(v, b, WordsFor(c), j) == c[j];
    assert d == c;
  }

  /**
   A value can be behind threshold - 1 shares exactly when the one polynomial that fits has no zero
   among its drawn coefficients.
   */
  lemma {:induction false} PossibleExactly(c: seq<nat>, v: nat, seen: seq<Share>, b: nat)
    requires Observation(seen, b) && v < P && Fits(c, v, seen)
    ensures Possible(v, seen, b) <==> forall j :: 1 <= j < |c| ==> c[j] != 0
  {
    if Possible(v, seen, b) {
      var draw :| Deals(draw, v, seen, b);
      var d := Coefficients(v, |seen| + 1, b, draw);
      DealtFits(draw, v, seen, b);
      FittingIsUnique(d, c, v, seen, b);
      assert forall j :: 1 <= j < |d| ==> d[j] > 0;
    }
    if forall j :: 1 <= j < |c| ==> c[j] != 0 {
      FittingIsDealt(c, v, seen, b);
    }
  }

  /** At threshold two, one share excludes exactly one value: its own. */
  lemma OneShareExcludesItself(v: nat, s: Share, b: nat)
    requires Observation([s], b) && v < P
    ensures Possible(v, [s], b) <==> v != s.y
  {
    var c := ExactlyOneFits(v, [s], b);
    PossibleExactly(c, v, [s], b);
    assert [s][0] == s;
    assert c == [c[0], c[1]] && c[1..] == [c[1]] && c[1..][1..] == [];
    assert Poly(c, s.x) == v + s.x * c[1] by {
      assert Poly(c[1..], s.x) == c[1] + s.x * Poly(c[1..][1..], s.x);
    }
    SecondCoefficient(v, s.x, c[1], s.y);
  }

  lemma SecondCoefficient(v: nat, x: nat, a: nat, y: nat)
    requires v < P && y < P && a < P && 1 <= x < P && (v + x * a) % P == y
    ensures a == 0 <==> v == y
  {
    if v == y {
      CongMod(v + x * a, y);
      CongFrom(x * a, 0, Quotient(v + x * a, y));
      CancelFactor(x, a);
      CongMod(a, 0);
    }
  }

  // ---------------------------------------------------------------- how much one coefficient excludes

  ghost function Combined(s: int, c: seq<int>, t: int, d: seq<int>): (r: seq<int>)
    requires |c| == |d|
    ensures |r| == |c| && forall j :: 0 <= j < |c| ==> r[j] == s * c[j] + t * d[j]
  {
    seq(|c|, j requires 0 <= j < |c| => s * c[j] + t * d[j])
  }

  lemma {:induction false} PolyCombined(s: int, c: seq<int>, t: int, d: seq<int>, x: int)
    requires |c| == |d|
    ensures Poly(Combined(s, c, t, d), x) == s * Poly(c, x) + t * Poly(d, x)
  {
    if c != [] {
      PolyCombined(s, c[1..], t, d[1..], x);
      assert Combined(s, c, t, d)[1..] == Combined(s, c[1..], t, d[1..]);
      CombinedStep(s, c[0], Poly(c[1..], x), t, d[0], Poly(d[1..], x), x);
    }
  }

  lemma CombinedStep(s: int, a: int, p: int, t: int, b: int, q: int, x: int)
    ensures s * a + t * b + x * (s * p + t * q) == s * (a + x * p) + t * (b + x * q)
  {
    assert x * (s * p + t * q) == s * (x * p) + t * (x * q);
  }

  /** Weights that sum to one and take v and w to u. */
  lemma Weights(u: int, v: int, w: int) returns (s: int, t: int)
    requires Apart(w, v)
    ensures Cong(s + t, 1) && Cong(s * v + t * w, u)
  {
    var k := Inverse(w - v);
    s, t := (w - u) * k, (u - v) * k;
    InverseIsInverse(w - v);
    assert s + t == (w - v) * k by {
      assert (w - u) * k + (u - v) * k == (w - u + (u - v)) * k;
    }
    CongDrop((w - v) * k, u);
    WeightsStep(u, v, w, k);
  }

  lemma WeightsStep(u: int, v: int, w: int, k: int)
    ensures (w - u) * k * v + (u - v) * k * w == (w - v) * k * u
  {
    assert (w - u) * k * v == k * (w * v) - k * (u * v);
    assert (u - v) * k * w == k * (u * w) - k * (v * w);
    assert (w - v) * k * u == k * (w * u) - k * (v * u);
  }

  lemma WeightedValue(s: int, t: int, a: int, b: int, y: int)
    requires Cong(s + t, 1) && Cong(a, y) && Cong(b, y)
    ensures Cong(s * a + t * b, y)
  {
    CongRefl(s);
    CongRefl(t);
    CongMul(s, s, a, y);
    CongMul(t, t, b, y);
    CongAdd(s * a, s * y, t * b, t * y);
    CongDrop(s + t, y);
    assert (s + t) * y == s * y + t * y;
    CongTrans(s * a + t * b, (s + t) * y, y);
  }

  /** The polynomial for a value u, from those for two other values. */
  lemma CombinationFits(c: seq<nat>, v: nat, d: seq<nat>, w: nat, u: nat, seen: seq<Share>, s: int, t: int)
    requires Fits(c, v, seen) && Fits(d, w, seen) && Cong(s + t, 1) && Cong(s * v + t * w, u)
    ensures Through(Combined(s, c, t, d), Abscissae(seen), Ordinates(u, seen))
  {
    var xs, ys := Abscissae(seen), Ordinates(u, seen);
    FitsGoesThrough(c, v, seen);
    FitsGoesThrough(d, w, seen);
    forall i | 0 <= i < |xs|
      ensures Cong(Poly(Combined(s, c, t, d), xs[i]), ys[i])
    {
      PointAt(u, seen, i);
      PointAt(v, seen, i);
      PointAt(w, seen, i);
      PolyCombined(s, c, t, d, xs[i]);
      if i == 0 {
        AtZero(c);
        AtZero(d);
      } else {
        assert Cong(Poly(c, xs[i]), Ordinates(v, seen)[i]) && Cong(Poly(d, xs[i]), Ordinates(w, seen)[i]);
        WeightedValue(s, t, Poly(c, xs[i]), Poly(d, xs[i]), ys[i]);
      }
    }
  }

  /** A coefficient that is zero for two values is zero for all: each place excludes no value, one, or every value. */
  lemma ZeroForTwoIsZeroForAll(c: seq<nat>, v: nat, d: seq<nat>, w: nat, e: seq<nat>, u: nat,
                               seen: seq<Share>, b: nat, j: nat)
    requires Observation(seen, b) && v < P && w < P && u < P && v != w
    requires Fits(c, v, seen) && Fits(d, w, seen) && Fits(e, u, seen) && j <= |seen| && c[j] == 0 && d[j] == 0
    ensures e[j] == 0
  {
    assert Apart(w, v);
    var s, t := Weights(u, v, w);
    var raw := Combined(s, c, t, d);
    CombinationFits(c, v, d, w, u, seen, s, t);
    ReducedIsThrough(raw, Abscissae(seen), Ordinates(u, seen));
    ThroughFits(Reduced(raw), u, seen, b);
    FittingIsUnique(e, Reduced(raw), u, seen, b);
    assert raw[j] == s * c[j] + t * d[j] == 0;
  }

  // ---------------------------------------------------------------- all blocks at once

  /** One coefficient list per block, each of the threshold's length, reduced, and without a zero but in front. */
  ghost predicate Plan(cs: seq<seq<nat>>, threshold: nat) {
    forall b :: 0 <= b < |cs| ==>
      |cs[b]| == threshold && forall j :: 1 <= j < threshold ==> 0 < cs[b][j] < P
  }

  /** Random words that give every block its own coefficients. */
  ghost function WordsForAll(cs: seq<seq<nat>>): Randomness {
    (b: nat, j: nat) => if b < |cs| && j < |cs[b]| then cs[b][j] else 0
  }

  lemma PlanIsDrawn(cs: seq<seq<nat>>, threshold: nat, b: nat)
    requires threshold > 0 && Plan(cs, threshold) && b < |cs|
    ensures Coefficients(cs[b][0], threshold, b, WordsForAll(cs)) == cs[b]
  {
    var c, d := cs[b], Coefficients(cs[b][0], threshold, b, WordsForAll(cs));
    assert forall j :: 1 <= j < threshold ==> d[j] == CoefficientAt(c[0], b, WordsForAll(cs), j) == c[j];
    assert d == c;
  }

  /** The share of block b at x is y, and stands in its place of the list. */
  ghost predicate HandsOut(shares: seq<Share>, total: nat, b: nat, x: nat, y: nat) {
    0 <= b * total + x - 1 < |shares| && shares[b * total + x - 1] == Share(x, y, b)
  }

  /**
   Every block is shared with randomness of its own: whatever polynomials are chosen for the blocks,
   each with its block's value as constant term and no zero coefficient after it, some random words
   make the splitter hand out exactly their values, all at once.
   */
  lemma {:induction false} AnyPolynomialsCanBeDealt(padded: Bytes, threshold: nat, total: nat, cs: seq<seq<nat>>)
    returns (draw: Randomness)
    requires threshold > 0 && Plan(cs, threshold) && |cs| * BLOCK_SIZE <= |padded|
    requires forall b :: 0 <= b < |cs| ==> cs[b][0] == FromBigEndian(padded[7 * b..7 * b + 7])
    ensures forall b, x :: 0 <= b < |cs| && 1 <= x <= total ==>
      HandsOut(SharesOf(padded, threshold, total, draw, |cs|), total, b, x, Poly(cs[b], x) % P)
  {
    draw := WordsForAll(cs);
    forall b, x | 0 <= b < |cs| && 1 <= x <= total
      ensures HandsOut(SharesOf(padded, threshold, total, draw, |cs|), total, b, x, Poly(cs[b], x) % P)
    {
      PlanIsDrawn(cs, threshold, b);
      ShareAtPlace(padded, threshold, total, draw, |cs|, b, x);
      assert Block(padded, b) == padded[7 * b..7 * b + 7];
    }
  }

  /** The words of a block decide that block's shares and no other's. */
  lemma {:induction false} OtherWordsDoNotMatter(padded: Bytes, threshold: nat, total: nat, draw: Randomness, draw': Randomness,
                                                 n: nat, b: nat, x: nat)
    requires threshold > 0 && n * BLOCK_SIZE <= |padded| && b < n && 1 <= x <= total
    requires forall j: nat :: draw(b, j) == draw'(b, j)
    ensures var place := b * total + x - 1;
      && 0 <= place < |SharesOf(padded, threshold, total, draw, n)| && place < |SharesOf(padded, threshold, total, draw', n)|
      && SharesOf(padded, threshold, total, draw, n)[place] == SharesOf(padded, threshold, total, draw', n)[place]
  {
    ShareAtPlace(padded, threshold, total, draw, n, b, x);
    ShareAtPlace(padded, threshold, total, draw', n, b, x);
    SameWordsSameCoefficients(FromBigEndian(Block(padded, b)), threshold, b, draw, draw');
  }

  lemma SameWordsSameCoefficients(v: nat, threshold: nat, b: nat, draw: Randomness, draw': Randomness)
    requires threshold > 0 && forall j: nat :: draw(b, j) == draw'(b, j)
    ensures Coefficients(v, threshold, b, draw) == Coefficients(v, threshold, b, draw')
  {
    var c, d := Coefficients(v, threshold, b, draw), Coefficients(v, threshold, b, draw');
    assert forall j :: 0 <= j < threshold ==> c[j] == CoefficientAt(v, b, draw, j) == CoefficientAt(v, b, draw', j) == d[j];
    assert c == d;
  }

  /** The same number of shares seen of every block. */
  ghost predicate Observations(seens: seq<seq<Share>>, k: nat) {
    forall b :: 0 <= b < |seens| ==> |seens[b]| == k && Observation(seens[b], b)
  }

  /** One splitting, with these random words for all blocks, deals all the shares seen. */
  ghost predicate DealsAll(draw: Randomness, vs: seq<nat>, seens: seq<seq<Share>>)
    requires |vs| == |seens|
  {
    forall b :: 0 <= b < |vs| ==> Deals(draw, vs[b], seens[b], b)
  }

  ghost predicate PossibleTogether(vs: seq<nat>, seens: seq<seq<Share>>)
    requires |vs| == |seens|
  {
    exists draw: Randomness :: DealsAll(draw, vs, seens)
  }

  ghost predicate FitAll(cs: seq<seq<nat>>, vs: seq<nat>, seens: seq<seq<Share>>) {
    |cs| == |vs| == |seens| && forall b :: 0 <= b < |cs| ==> vs[b] < P && Fits(cs[b], vs[b], seens[b])
  }

  /**
   Block values are possible together behind threshold - 1 shares of every block exactly when each block's
   one fitting polynomial has no zero among its drawn coefficients: no block says anything about another.
   */
  lemma {:induction false} PossibleTogetherExactly(cs: seq<seq<nat>>, vs: seq<nat>, seens: seq<seq<Share>>, k: nat)
    requires FitAll(cs, vs, seens) && Observations(seens, k)
    ensures PossibleTogether(vs, seens) <==> Plan(cs, k + 1)
  {
    if PossibleTogether(vs, seens) {
      var draw :| DealsAll(draw, vs, seens);
      forall b | 0 <= b < |cs|
        ensures |cs[b]| == k + 1 && forall j :: 1 <= j < k + 1 ==> 0 < cs[b][j] < P
      {
        assert Deals(draw, vs[b], seens[b], b);
        PossibleExactly(cs[b], vs[b], seens[b], b);
      }
    }
    if Plan(cs, k + 1) {
      forall b | 0 <= b < |vs|
        ensures Deals(WordsForAll(cs), vs[b], seens[b], b)
      {
        PlanIsDrawn(cs, k + 1, b);
      }
      assert DealsAll(WordsForAll(cs), vs, seens);
    }
  }
}
