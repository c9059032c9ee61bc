/**
 Secret sharing: a secret is padded, cut into seven-byte blocks, and every block becomes
 the constant term of a polynomial whose values are the shares.

 The main result, SplitThenReconstruct, says that any choice of at least `threshold`
 different shares for every block gives back exactly the secret.
 */
module Shamir {
  import opened Common
  import opened PrimeField
  import opened Interpolation
  import opened ShareCommitments

  const BLOCK_SIZE: nat := 7

  datatype Share = Share(x: nat, y: nat, blockIndex: nat)

  datatype Metadata = Metadata(isVerifiable: bool, secretHash: Option<Bytes>, originalLen: Option<nat>, numBlocks: Option<nat>)

  datatype SplitError = ThresholdBelowTwo | TooFewShares | EmptySecret

  datatype SplitResult =
    | Split(totalShares: nat, threshold: nat, shares: seq<Share>, commitments: Option<seq<Commitment>>, metadata: Metadata)
    | Rejected(error: SplitError)

  datatype Reconstruction =
    | Recovered(secret: Bytes)
    | NoShares
    | LessThanOnePerBlock
    | UnevenShares
    | HashMismatch

  // ---------------------------------------------------------------- field arithmetic

  function AddMod(a: nat, b: nat): nat
    requires a + b < TWO_64
  {
    (a + b) % P
  }

  function SubMod(a: nat, b: nat): nat
    requires b <= a + P < TWO_64
  {
    (a + P - b) % P
  }

  function MulMod(a: nat, b: nat): nat {
    a * b % P
  }

  lemma MulModCong(a: nat, x: int, b: nat, y: int)
    requires Cong(a, x) && Cong(b, y)
    ensures Cong(MulMod(a, b), x * y)
  {
    CongMul(a, x, b, y);
    CongResidue(a * b);
    CongTrans(MulMod(a, b), a * b, x * y);
  }

  lemma AddModCong(a: nat, x: int, b: nat, y: int)
    requires Cong(a, x) && Cong(b, y) && a + b < TWO_64
    ensures Cong(AddMod(a, b), x + y)
  {
    CongAdd(a, x, b, y);
    CongResidue(a + b);
    CongTrans(AddMod(a, b), a + b, x + y);
  }

  lemma ReducedIsResidue(r: nat, x: int)
    requires r < P && Cong(r, x)
    ensures r == x % P
  {
    CongMod(r, x);
  }

  /** Square and multiply computes the power. */
  method PowMod(base: nat, exp: nat) returns (result: nat)
    ensures result == Exp(base, exp) % P
  {
    if exp == 0 {
      return 1;
    }
    result := 1;
    var b: nat, e: nat := base % P, exp;
    CongResidue(base);
    CongExp(b, base, e);
    while e > 0
      invariant result < P
      invariant Cong(result * Exp(b, e), Exp(base, exp))
    {
      ghost var r0, b0, x := result, b, Exp(b * b, e / 2);
      ExpHalf(b0, e);
      if e % 2 == 1 {
        result := MulMod(result, b);
      }
      e := e / 2;
      b := MulMod(b, b);
      PowStep(r0, b0, x, Exp(b, e), result, Exp(base, exp)) by {
        CongResidue(b0 * b0);
        CongExp(b, b0 * b0, e);
      }
    }
    assert Exp(b, 0) == 1;
    ReducedIsResidue(result, Exp(base, exp));
  }

  /** The invariant of one round, for an even or an odd exponent. */
  lemma PowStep(r: nat, b: nat, x: int, y: int, r': nat, goal: int)
    requires Cong(y, x)
    requires (r' == r && Cong(r * x, goal)) || (r' == MulMod(r, b) && Cong(r * (b * x), goal))
    ensures Cong(r' * y, goal)
  {
    CongRefl(r);
    if r' == r && Cong(r * x, goal) {
      CongMul(r, r, y, x);
      CongTrans(r' * y, r * x, goal);
    } else {
      CongResidue(r * b);
      CongMul(r', r * b, y, x);
      Associate(r, b, x);
      CongTrans(r' * y, r * b * x, goal);
    }
  }

  method InvMod(a: nat) returns (r: nat)
    ensures r == Inverse(a)
  {
    r := PowMod(a, P - 2);
  }

  lemma {:induction false} PolySnoc(c: seq<int>, d: int, x: int)
    ensures Poly(c + [d], x) == Poly(c, x) + d * Exp(x, |c|)
  {
    if c == [] {
      assert (c + [d])[1..] == [];
    } else {
      PolySnoc(c[1..], d, x);
      assert (c + [d])[1..] == c[1..] + [d];
      PolySnocStep(x, Poly(c[1..], x), d, Exp(x, |c| - 1));
    }
  }

  lemma PolySnocStep(x: int, p: int, d: int, e: int)
    ensures x * (p + d * e) == x * p + d * (x * e)
  {
  }

  /** Evaluation with running powers computes the polynomial's value. */
  method EvaluatePolynomial(coefficients: seq<nat>, x: nat) returns (result: nat)
    requires forall i :: 0 <= i < |coefficients| ==> coefficients[i] < P
    ensures result == Poly(coefficients, x) % P
  {
    result := 0;
    var power: nat := 1;
    CongRefl(0);
    CongRefl(1);
    for i := 0 to |coefficients|
      invariant result < P && power < P
      invariant Cong(result, Poly(coefficients[..i], x))
      invariant Cong(power, Exp(x, i))
    {
      ghost var c := coefficients[i];
      PolySnoc(coefficients[..i], c, x);
      assert coefficients[..i + 1] == coefficients[..i] + [c];
      CongRefl(c);
      CongRefl(x);
      MulModCong(c, c, power, Exp(x, i));
      AddModCong(result, Poly(coefficients[..i], x), MulMod(c, power), c * Exp(x, i));
      MulModCong(power, Exp(x, i), x, x);
      assert Exp(x, i + 1) == Exp(x, i) * x;
      result := AddMod(result, MulMod(coefficients[i], power));
      power := MulMod(power, x);
    }
    assert coefficients[..|coefficients|] == coefficients;
    ReducedIsResidue(result, Poly(coefficients, x));
  }

  // ---------------------------------------------------------------- splitting

  function PaddedLen(n: nat): nat {
    (n / BLOCK_SIZE + 1) * BLOCK_SIZE
  }

  function NumBlocks(n: nat): nat {
    n / BLOCK_SIZE + 1
  }

  /** The secret followed by as many copies of the pad length as fill the last block. */
  function Padded(secret: Bytes): (r: Bytes)
    ensures |r| == NumBlocks(|secret|) * BLOCK_SIZE && r[..|secret|] == secret
  {
    var pad := PaddedLen(|secret|) - |secret|;
    secret + seq(pad, _ => pad)
  }

  function Block(padded: Bytes, b: nat): (r: Bytes)
    requires (b + 1) * BLOCK_SIZE <= |padded|
    ensures |r| == BLOCK_SIZE
  {
    padded[b * BLOCK_SIZE..(b + 1) * BLOCK_SIZE]
  }

  /** A random word reduced into the field, with zero replaced by one. */
  function FieldElement(draw: nat): (r: nat)
    ensures 0 < r < P
  {
    if draw % P == 0 then 1 else draw % P
  }

  /** The random words, by block and by coefficient. */
  type Randomness = (nat, nat) -> nat

  function CoefficientAt(value: nat, b: nat, draw: Randomness, j: nat): nat {
    if j == 0 then value else FieldElement(draw(b, j))
  }

  /** The coefficients of block b: its value, then threshold - 1 random ones. */
  function Coefficients(value: nat, threshold: nat, b: nat, draw: Randomness): (r: seq<nat>)
    requires threshold > 0
    ensures |r| == threshold && r[0] == value
    ensures forall j :: 1 <= j < threshold ==> 0 < r[j] < P
  {
    seq(threshold, (j: nat) => CoefficientAt(value, b, draw, j))
  }

  ghost function ShareOf(c: seq<nat>, x: nat, b: nat): Share {
    Share(x, Poly(c, x) % P, b)
  }

  ghost function BlockShares(c: seq<nat>, total: nat, b: nat): seq<Share> {
    seq(total, (i: nat) => ShareOf(c, i + 1, b))
  }

  /** The shares of the first n blocks, block after block. */
  ghost function SharesOf(padded: Bytes, threshold: nat, total: nat, draw: Randomness, n: nat): seq<Share>
    requires threshold > 0 && n * BLOCK_SIZE <= |padded|
  {
    if n == 0 then []
    else
      SharesOf(padded, threshold, total, draw, n - 1)
      + BlockShares(CoefficientsOf(padded, threshold, draw, n - 1), total, n - 1)
  }

  function CoefficientsOf(padded: Bytes, threshold: nat, draw: Randomness, b: nat): seq<nat>
    requires threshold > 0 && (b + 1) * BLOCK_SIZE <= |padded|
  {
    Coefficients(FromBigEndian(Block(padded, b)), threshold, b, draw)
  }

  /** The coefficients of the first n blocks. */
  function Dealt(padded: Bytes, threshold: nat, draw: Randomness, n: nat): (r: seq<seq<nat>>)
    requires threshold > 0 && n * BLOCK_SIZE <= |padded|
    ensures |r| == n && forall b :: 0 <= b < n ==> r[b] == CoefficientsOf(padded, threshold, draw, b)
  {
    seq(n, b requires 0 <= b < n => CoefficientsOf(padded, threshold, draw, b))
  }

  lemma DealtSnoc(padded: Bytes, threshold: nat, draw: Randomness, sha256: Sha256, n: nat)
    requires threshold > 0 && (n + 1) * BLOCK_SIZE <= |padded|
    ensures AllCommitments(Dealt(padded, threshold, draw, n + 1), sha256)
         == AllCommitments(Dealt(padded, threshold, draw, n), sha256)
          + Commitments(CoefficientsOf(padded, threshold, draw, n), n, sha256)
  {
    assert Dealt(padded, threshold, draw, n + 1)[..n] == Dealt(padded, threshold, draw, n);
  }

  lemma BlockValueFits(block: Bytes)
    requires |block| == BLOCK_SIZE
    ensures FromBigEndian(block) < P
  {
    FromBigEndianBound(block);
    ByteRanges();
  }

  method DrawCoefficients(value: nat, threshold: nat, b: nat, draw: Randomness) returns (c: seq<nat>)
    requires threshold > 0
    ensures c == Coefficients(value, threshold, b, draw)
  {
    c := [value];
    for j := 1 to threshold
      invariant c == Coefficients(value, threshold, b, draw)[..j]
    {
      c := c + [FieldElement(draw(b, j))];
    }
  }

  method ShareBlock(c: seq<nat>, total: nat, b: nat) returns (shares: seq<Share>)
    requires forall i :: 0 <= i < |c| ==> c[i] < P
    ensures shares == BlockShares(c, total, b)
  {
    shares := [];
    for x := 1 to total + 1
      invariant shares == BlockShares(c, total, b)[..x - 1]
    {
      var y := EvaluatePolynomial(c, x);
      shares := shares + [Share(x, y, b)];
    }
  }

  /** One block: its coefficients and its shares. */
  method ShareOne(padded: Bytes, threshold: nat, total: nat, draw: Randomness, b: nat)
    returns (c: seq<nat>, shares: seq<Share>)
    requires threshold > 0 && (b + 1) * BLOCK_SIZE <= |padded|
    ensures c == CoefficientsOf(padded, threshold, draw, b) && shares == BlockShares(c, total, b)
  {
    var block := padded[b * BLOCK_SIZE..(b + 1) * BLOCK_SIZE];
    BlockValueFits(block);
    c := DrawCoefficients(FromBigEndian(block), threshold, b, draw);
    shares := ShareBlock(c, total, b);
  }

  /** Pad to whole blocks; a secret that fills its blocks gets a block of padding. */
  method Pad(secret: Bytes) returns (padded: Bytes, numBlocks: nat)
    ensures padded == Padded(secret) && numBlocks == NumBlocks(|secret|)
  {
    var originalLen := |secret|;
    var paddedLen := if originalLen % BLOCK_SIZE == 0 then originalLen + BLOCK_SIZE
                     else (originalLen / BLOCK_SIZE + 1) * BLOCK_SIZE;
    var pad := paddedLen - originalLen;
    padded := secret + seq(pad, _ => pad);
    numBlocks := paddedLen / BLOCK_SIZE;
  }

  /** The loop over the blocks. */
  method ShareAll(padded: Bytes, threshold: nat, total: nat, verifiable: bool, draw: Randomness, sha256: Sha256, n: nat)
    returns (shares: seq<Share>, commitments: seq<Commitment>)
    requires threshold > 0 && n * BLOCK_SIZE <= |padded|
    ensures shares == SharesOf(padded, threshold, total, draw, n)
    ensures commitments == if verifiable then AllCommitments(Dealt(padded, threshold, draw, n), sha256) else []
  {
    shares, commitments := [], [];
    for b := 0 to n
      invariant shares == SharesOf(padded, threshold, total, draw, b)
      invariant commitments == if verifiable then AllCommitments(Dealt(padded, threshold, draw, b), sha256) else []
    {
      var c, blockShares := ShareOne(padded, threshold, total, draw, b);
      if verifiable {
        DealtSnoc(padded, threshold, draw, sha256, b);
        commitments := commitments + Commitments(c, b, sha256);
      }
      shares := shares + blockShares;
    }
  }

  /** Splitting rejects exactly the three bad inputs and otherwise hands out the values of the blocks' polynomials. */
  method SplitSecret(secret: Bytes, threshold: nat, total: nat, verifiable: bool, draw: Randomness, sha256: Sha256)
    returns (r: SplitResult)
    ensures r.Rejected? <==> threshold < 2 || total < threshold || secret == []
    ensures r.Rejected? ==>
      (r.error == if threshold < 2 then ThresholdBelowTwo else if total < threshold then TooFewShares else EmptySecret)
    ensures r.Split? ==>
      && r.totalShares == total && r.threshold == threshold
      && r.metadata == Metadata(verifiable, Some(sha256(secret)), Some(|secret|), Some(NumBlocks(|secret|)))
      && r.commitments == (if verifiable then Some(AllCommitments(Dealt(Padded(secret), threshold, draw, NumBlocks(|secret|)), sha256))
                           else None)
      && r.shares == SharesOf(Padded(secret), threshold, total, draw, NumBlocks(|secret|))
  {
    if threshold < 2 {
      return Rejected(ThresholdBelowTwo);
    }
    if total < threshold {
      return Rejected(TooFewShares);
    }
    if secret == [] {
      return Rejected(EmptySecret);
    }
    var padded, numBlocks := Pad(secret);
    var shares, commitments := ShareAll(padded, threshold, total, verifiable, draw, sha256, numBlocks);
    CommitmentsNotEmpty(Dealt(padded, threshold, draw, numBlocks), sha256);
    var hasCommitments := verifiable && commitments != [];
    r := Split(total, threshold, shares, if hasCommitments then Some(commitments) else None,
               Metadata(hasCommitments, Some(sha256(secret)), Some(|secret|), Some(numBlocks)));
  }

  // ---------------------------------------------------------------- reconstruction

  function Xs(block: seq<Share>): (r: seq<int>)
    ensures |r| == |block| && forall i :: 0 <= i < |r| ==> r[i] == block[i].x
  {
    seq(|block|, i requires 0 <= i < |block| => block[i].x)
  }

  function Ys(block: seq<Share>): (r: seq<int>)
    ensures |r| == |block| && forall i :: 0 <= i < |r| ==> r[i] == block[i].y
  {
    seq(|block|, i requires 0 <= i < |block| => block[i].y)
  }

  /** Shares carry four-byte indices and eight-byte values. */
  predicate WellTyped(shares: seq<Share>) {
    forall i :: 0 <= i < |shares| ==> shares[i].x < 0x1_0000_0000 && shares[i].y < TWO_64
  }

  ghost function BlockSecret(block: seq<Share>): nat {
    Lagrange([], Xs(block), Ys(block)) % P
  }

  /** The first j of xs without the i-th. */
  ghost function Skip(xs: seq<int>, i: nat, j: nat): seq<int>
    requires i < |xs| && j <= |xs|
  {
    if j <= i then xs[..j] else xs[..i] + xs[i + 1..j]
  }

  lemma ProductSnoc(s: seq<int>, a: int)
    ensures Product(s + [a]) == Product(s) * a
  {
    ProductConcat(s, [a]);
    assert [a][1..] == [];
    assert Product([a]) == a * Product([]) == a;
  }

  lemma {:induction false} DifferencesSnoc(s: seq<int>, a: int, x: int)
    ensures Differences(s + [a], x) == Differences(s, x) * (a - x)
  {
    if s == [] {
      assert (s + [a])[1..] == [];
    } else {
      DifferencesSnoc(s[1..], a, x);
      assert (s + [a])[1..] == s[1..] + [a];
      Associate(s[0] - x, Differences(s[1..], x), a - x);
    }
  }

  lemma SkipSnoc(xs: seq<int>, i: nat, j: nat)
    requires i < |xs| && j < |xs|
    ensures Skip(xs, i, j + 1) == if j == i then Skip(xs, i, j) else Skip(xs, i, j) + [xs[j]]
  {
  }

  /** The weight of the i-th share of a block. */
  method LagrangeCoefficient(block: seq<Share>, i: nat) returns (r: nat)
    requires i < |block| && WellTyped(block)
    ensures r < P && Cong(r, Coefficient(Skip(Xs(block), i, |block|), block[i].x))
  {
    ghost var xs := Xs(block);
    var xi := block[i].x;
    var numerator: nat, denominator: nat := 1, 1;
    CongRefl(1);
    assert Skip(xs, i, 0) == [];
    for j := 0 to |block|
      invariant numerator < P && denominator < P
      invariant Cong(numerator, Product(Skip(xs, i, j)))
      invariant Cong(denominator, Differences(Skip(xs, i, j), xi))
    {
      SkipSnoc(xs, i, j);
      if i != j {
        var xj := block[j].x;
        ghost var s := Skip(xs, i, j);
        ProductSnoc(s, xj);
        DifferencesSnoc(s, xj, xi);
        CongRefl(xj);
        MulModCong(numerator, Product(s), xj, xj);
        numerator := MulMod(numerator, xj);
        assert Cong(SubMod(xj, xi), xj - xi) by {
          CongResidue(xj + P - xi);
          CongFrom(xj + P - xi, xj - xi, 1);
          CongTrans(SubMod(xj, xi), xj + P - xi, xj - xi);
        }
        MulModCong(denominator, Differences(s, xi), SubMod(xj, xi), xj - xi);
        denominator := MulMod(denominator, SubMod(xj, xi));
      }
    }
    var inverse := InvMod(denominator);
    ghost var others := Skip(xs, i, |block|);
    InverseCong(denominator, Differences(others, xi));
    MulModCong(numerator, Product(others), inverse, Inverse(Differences(others, xi)));
    r := MulMod(numerator, inverse);
  }

  lemma InverseCong(a: nat, b: int)
    requires Cong(a, b)
    ensures Cong(Inverse(a), Inverse(b))
  {
    CongExp(a, b, P - 2);
    CongResidue(Exp(a, P - 2));
    CongResidue(Exp(b, P - 2));
    CongSym(Inverse(b), Exp(b, P - 2));
    CongTrans(Inverse(a), Exp(a, P - 2), Exp(b, P - 2));
    CongTrans(Inverse(a), Exp(b, P - 2), Inverse(b));
  }

  lemma LagrangeStep(xs: seq<int>, ys: seq<int>, i: nat)
    requires |xs| == |ys| && i < |xs|
    ensures Lagrange(xs[..i], xs[i..], ys[i..])
         == ys[i] * Coefficient(Skip(xs, i, |xs|), xs[i]) + Lagrange(xs[..i + 1], xs[i + 1..], ys[i + 1..])
  {
    assert xs[i..][1..] == xs[i + 1..] && ys[i..][1..] == ys[i + 1..];
    assert xs[..i] + [xs[i]] == xs[..i + 1];
    assert xs[..i] + xs[i + 1..] == Skip(xs, i, |xs|);
  }

  /** The double loop over a block's shares computes the interpolation sum. */
  method InterpolateBlock(block: seq<Share>) returns (value: nat)
    requires WellTyped(block)
    ensures value == BlockSecret(block)
  {
    ghost var xs, ys := Xs(block), Ys(block);
    value := 0;
    assert xs[..0] == [] && xs[0..] == xs && ys[0..] == ys;
    CongRefl(Lagrange([], xs, ys));
    for i := 0 to |block|
      invariant value < P
      invariant Cong(value + Lagrange(xs[..i], xs[i..], ys[i..]), Lagrange([], xs, ys))
    {
      var k := LagrangeCoefficient(block, i);
      ghost var rest, v0 := Lagrange(xs[..i + 1], xs[i + 1..], ys[i + 1..]), value;
      ghost var c := Coefficient(Skip(xs, i, |block|), xs[i]);
      LagrangeStep(xs, ys, i);
      CongRefl(v0);
      CongRefl(block[i].y);
      MulModCong(block[i].y, block[i].y, k, c);
      AddModCong(v0, v0, MulMod(block[i].y, k), block[i].y * c);
      value := AddMod(value, MulMod(block[i].y, k));
      MoveTerm(value, v0, block[i].y * c, rest, Lagrange([], xs, ys));
    }
    assert xs[|block|..] == [] && ys[|block|..] == [];
    ReducedIsResidue(value, Lagrange([], xs, ys));
  }

  lemma MoveTerm(v: int, v0: int, t: int, rest: int, goal: int)
    requires Cong(v, v0 + t) && Cong(v0 + (t + rest), goal)
    ensures Cong(v + rest, goal)
  {
    CongRefl(rest);
    CongAdd(v, v0 + t, rest, rest);
    CongTrans(v + rest, v0 + t + rest, goal);
  }

  predicate IsMultipleOf(a: nat, b: nat) {
    if b == 0 then a == 0 else a % b == 0
  }

  lemma SliceBounds(b: nat, n: nat, m: nat)
    requires b < n
    ensures 0 <= b * m <= b * m + m <= n * m
  {
    assert (b + 1) * m <= n * m;
  }

  /** The shares of block b when every block has perBlock of them. */
  function BlockSlice(shares: seq<Share>, perBlock: nat, b: nat): seq<Share>
    requires b * perBlock + perBlock <= |shares|
  {
    shares[b * perBlock..b * perBlock + perBlock]
  }

  ghost function RecoverBlocks(shares: seq<Share>, perBlock: nat, n: nat): Bytes
    requires n * perBlock <= |shares|
  {
    if n == 0 then []
    else
      SliceBounds(n - 1, n, perBlock);
      RecoverBlocks(shares, perBlock, n - 1)
      + BigEndian(BlockSecret(BlockSlice(shares, perBlock, n - 1)), 8)[1..]
  }

  lemma ExactQuotient(a: nat, n: nat)
    requires n > 0 && a % n == 0
    ensures n * (a / n) == a
  {
  }

  /** Padding removal: by the recorded length, or by the padding itself when it is consistent. */
  function Unpad(data: Bytes, originalLen: Option<nat>): Bytes {
    match originalLen
    case Some(n) => if n <= |data| then data[..n] else data
    case None =>
      var pad := if data == [] then 0 else data[|data| - 1];
      if 0 < pad <= 8 && pad <= |data| && (forall i :: |data| - pad <= i < |data| ==> data[i] == pad)
      then data[..|data| - pad]
      else data
  }

  ghost function Reconstructed(shares: seq<Share>, metadata: Metadata, sha256: Sha256): Reconstruction {
    var n := if metadata.numBlocks.Some? then metadata.numBlocks.value else 1;
    if shares == [] then NoShares
    else if |shares| < n then LessThanOnePerBlock
    else if !IsMultipleOf(|shares|, n) then UnevenShares
    else
      ExactQuotient(|shares|, n);
      var secret := Unpad(RecoverBlocks(shares, |shares| / n, n), metadata.originalLen);
      if metadata.secretHash.Some? && sha256(secret) != metadata.secretHash.value then HashMismatch
      else Recovered(secret)
  }

  /** The loop over the blocks of a share list. */
  method RecoverAll(shares: seq<Share>, numBlocks: nat, perBlock: nat) returns (blocks: Bytes)
    requires WellTyped(shares) && numBlocks * perBlock <= |shares|
    ensures blocks == RecoverBlocks(shares, perBlock, numBlocks)
  {
    blocks := [];
    for b := 0 to numBlocks
      invariant b * perBlock <= |shares|
      invariant blocks == RecoverBlocks(shares, perBlock, b)
    {
      SliceBounds(b, numBlocks, perBlock);
      assert (b + 1) * perBlock == b * perBlock + perBlock;
      var value := InterpolateBlock(BlockSlice(shares, perBlock, b));
      blocks := blocks + BigEndian(value, 8)[1..];
    }
  }

  method Reconstruct(shares: seq<Share>, metadata: Metadata, sha256: Sha256) returns (r: Reconstruction)
    requires WellTyped(shares)
    ensures r == Reconstructed(shares, metadata, sha256)
  {
    if shares == [] {
      return NoShares;
    }
    var numBlocks := if metadata.numBlocks.Some? then metadata.numBlocks.value else 1;
    if |shares| < numBlocks {
      return LessThanOnePerBlock;
    }
    if !IsMultipleOf(|shares|, numBlocks) {
      return UnevenShares;
    }
    var perBlock := |shares| / numBlocks;
    ExactQuotient(|shares|, numBlocks);
    var blocks := RecoverAll(shares, numBlocks, perBlock);
    var secret := Unpad(blocks, metadata.originalLen);
    if metadata.secretHash.Some? && sha256(secret) != metadata.secretHash.value {
      return HashMismatch;
    }
    r := Recovered(secret);
  }

  // ---------------------------------------------------------------- the round trip

  /** Block b of the picked shares: different shares of that block's polynomial. */
  ghost predicate PickedFrom(block: seq<Share>, c: seq<nat>, total: nat, b: nat) {
    && (forall j :: 0 <= j < |block| ==> 1 <= block[j].x <= total && block[j] == ShareOf(c, block[j].x, b))
    && (forall i, j :: 0 <= i < j < |block| ==> block[i].x != block[j].x)
  }

  lemma {:induction false} LagrangeCong(pre: seq<int>, xs: seq<int>, ys: seq<int>, zs: seq<int>)
    requires |xs| == |ys| == |zs| && forall i :: 0 <= i < |xs| ==> Cong(ys[i], zs[i])
    ensures Cong(Lagrange(pre, xs, ys), Lagrange(pre, xs, zs))
    decreases |xs|
  {
    if xs == [] {
      CongRefl(0);
    } else {
      var k := Coefficient(pre + xs[1..], xs[0]);
      LagrangeCong(pre + [xs[0]], xs[1..], ys[1..], zs[1..]);
      CongRefl(k);
      CongMul(ys[0], zs[0], k, k);
      CongAdd(ys[0] * k, zs[0] * k,
              Lagrange(pre + [xs[0]], xs[1..], ys[1..]), Lagrange(pre + [xs[0]], xs[1..], zs[1..]));
    }
  }

  lemma SmallIndices(xs: seq<int>, total: nat)
    requires total < 0x1_0000_0000
    requires forall i :: 0 <= i < |xs| ==> 1 <= xs[i] <= total
    requires forall i, j :: 0 <= i < j < |xs| ==> xs[i] != xs[j]
    ensures Distinct(xs) && NonZero(xs)
  {
  }

  /** Enough different shares of a block give back the block's value. */
  lemma BlockRecovered(block: seq<Share>, c: seq<nat>, total: nat, b: nat)
    requires 0 < |c| <= |block| && c[0] < P && total < 0x1_0000_0000 && PickedFrom(block, c, total, b)
    ensures BlockSecret(block) == c[0]
  {
    var xs, ys := Xs(block), Ys(block);
    var zs := seq(|block|, i requires 0 <= i < |block| => Poly(c, xs[i]));
    SmallIndices(xs, total);
    forall i | 0 <= i < |block|
      ensures Cong(ys[i], zs[i])
    {
      CongResidue(Poly(c, xs[i]));
    }
    LagrangeCong([], xs, ys, zs);
    InterpolatesAtZero(c, xs, zs);
    CongTrans(Lagrange([], xs, ys), Lagrange([], xs, zs), c[0]);
    CongMod(Lagrange([], xs, ys), c[0]);
  }

  lemma {:induction false} LowBytes(v: nat, n: nat)
    ensures BigEndian(v, n + 1)[1..] == BigEndian(v, n)
  {
    if n == 0 {
      assert BigEndian(v, 1) == BigEndian(v / 256, 0) + [v % 256];
    } else {
      LowBytes(v / 256, n - 1);
      assert BigEndian(v, n + 1)[1..] == BigEndian(v / 256, n)[1..] + [v % 256];
    }
  }

  /** A choice of perBlock shares for every block, in block order. */
  ghost predicate Selection(picked: seq<Share>, perBlock: nat, padded: Bytes, threshold: nat, total: nat, draw: Randomness,
                            n: nat)
    requires threshold > 0 && n * BLOCK_SIZE <= |padded|
  {
    && |picked| == n * perBlock
    && forall b: nat :: b < n ==>
      (SliceBounds(b, n, perBlock);
       PickedFrom(BlockSlice(picked, perBlock, b), CoefficientsOf(padded, threshold, draw, b), total, b))
  }

  /** One block: its recovered bytes are the padded secret's block. */
  lemma BlockBytesRecovered(block: seq<Share>, padded: Bytes, threshold: nat, total: nat, draw: Randomness, b: nat)
    requires 0 < threshold <= |block| && total < 0x1_0000_0000 && (b + 1) * BLOCK_SIZE <= |padded|
    requires PickedFrom(block, CoefficientsOf(padded, threshold, draw, b), total, b)
    ensures BigEndian(BlockSecret(block), 8)[1..] == Block(padded, b)
  {
    var c := CoefficientsOf(padded, threshold, draw, b);
    BlockValueFits(Block(padded, b));
    BlockRecovered(block, c, total, b);
    BigEndianOfRead(Block(padded, b));
    LowBytes(c[0], BLOCK_SIZE);
  }

  lemma OneMore(b: nat, m: nat)
    ensures (b + 1) * m == b * m + m
  {
  }

  lemma RecoverStep(shares: seq<Share>, perBlock: nat, b: nat)
    requires (b + 1) * perBlock <= |shares| && b * perBlock + perBlock <= |shares|
    ensures RecoverBlocks(shares, perBlock, b + 1)
         == RecoverBlocks(shares, perBlock, b) + BigEndian(BlockSecret(BlockSlice(shares, perBlock, b)), 8)[1..]
  {
  }

  lemma NextBlock(padded: Bytes, b: nat)
    requires (b + 1) * BLOCK_SIZE <= |padded|
    ensures padded[..(b + 1) * BLOCK_SIZE] == padded[..b * BLOCK_SIZE] + Block(padded, b)
  {
  }

  /** One block of a selection. */
  lemma SelectedBlock(picked: seq<Share>, perBlock: nat, padded: Bytes, threshold: nat, total: nat,
                      draw: Randomness, n: nat, b: nat)
    requires 0 < threshold <= perBlock && total < 0x1_0000_0000 && n * BLOCK_SIZE <= |padded| && b < n
    requires Selection(picked, perBlock, padded, threshold, total, draw, n)
    ensures b * perBlock + perBlock <= |picked|
    ensures BigEndian(BlockSecret(BlockSlice(picked, perBlock, b)), 8)[1..] == Block(padded, b)
  {
    SliceBounds(b, n, perBlock);
    BlockBytesRecovered(BlockSlice(picked, perBlock, b), padded, threshold, total, draw, b);
  }

  lemma {:induction false} BlocksRecovered(picked: seq<Share>, perBlock: nat, padded: Bytes, threshold: nat, total: nat,
                                           draw: Randomness, n: nat, k: nat)
    requires 0 < threshold <= perBlock && total < 0x1_0000_0000 && n * BLOCK_SIZE <= |padded| && k <= n
    requires Selection(picked, perBlock, padded, threshold, total, draw, n)
    ensures k * perBlock <= |picked| && RecoverBlocks(picked, perBlock, k) == padded[..k * BLOCK_SIZE]
  {
    if k == 0 {
      assert padded[..0] == [];
    } else {
      var b := k - 1;
      SelectedBlock(picked, perBlock, padded, threshold, total, draw, n, b);
      OneMore(b, perBlock);
      BlocksRecovered(picked, perBlock, padded, threshold, total, draw, n, b);
      RecoverStep(picked, perBlock, b);
      NextBlock(padded, b);
    }
  }

  /** Any selection of enough shares of every block of a split secret reconstructs exactly that secret. */
  lemma SplitThenReconstruct(secret: Bytes, threshold: nat, total: nat, verifiable: bool, draw: Randomness,
                             sha256: Sha256, picked: seq<Share>, perBlock: nat)
    requires 2 <= threshold <= total < 0x1_0000_0000 && secret != [] && threshold <= perBlock
    requires Selection(picked, perBlock, Padded(secret), threshold, total, draw, NumBlocks(|secret|))
    ensures Reconstructed(picked, Metadata(verifiable, Some(sha256(secret)), Some(|secret|), Some(NumBlocks(|secret|))), sha256)
         == Recovered(secret)
  {
    var n, padded := NumBlocks(|secret|), Padded(secret);
    BlocksRecovered(picked, perBlock, padded, threshold, total, draw, n, n);
    MultipleIsDivisible(n, perBlock);
    DivideProduct(n, perBlock);
    assert padded[..n * BLOCK_SIZE] == padded;
  }

  lemma DivideProduct(n: nat, m: nat)
    requires n > 0 && m > 0
    ensures n * m / n == m && n * m >= n
  {
    var q := n * m / n;
    MultipleIsDivisible(n, m);
    assert n * m == n * q;
    assert q > m ==> n * q > n * m;
    assert q < m ==> n * q < n * m;
  }

  lemma {:induction false} SharesCount(padded: Bytes, threshold: nat, total: nat, draw: Randomness, n: nat)
    requires threshold > 0 && n * BLOCK_SIZE <= |padded|
    ensures |SharesOf(padded, threshold, total, draw, n)| == n * total
  {
    if n > 0 {
      SharesCount(padded, threshold, total, draw, n - 1);
      assert n * total == (n - 1) * total + total;
    }
  }

  /** Share x of block b stands at place b * total + x - 1 of the list that splitting hands out. */
  lemma {:induction false} ShareAtPlace(padded: Bytes, threshold: nat, total: nat, draw: Randomness, n: nat, b: nat, x: nat)
    requires threshold > 0 && n * BLOCK_SIZE <= |padded| && b < n && 1 <= x <= total
    ensures 0 <= b * total + x - 1 < |SharesOf(padded, threshold, total, draw, n)|
    ensures SharesOf(padded, threshold, total, draw, n)[b * total + x - 1]
         == ShareOf(CoefficientsOf(padded, threshold, draw, b), x, b)
  {
    SharesCount(padded, threshold, total, draw, n);
    SharesCount(padded, threshold, total, draw, n - 1);
    SliceBounds(b, n, total);
    if b < n - 1 {
      SliceBounds(b, n - 1, total);
      ShareAtPlace(padded, threshold, total, draw, n - 1, b, x);
    }
  }

  /** The padding tells the length it was added to. */
  lemma UnpadPadded(secret: Bytes)
    ensures Unpad(Padded(secret), None) == secret
  {
    var padded, pad := Padded(secret), PaddedLen(|secret|) - |secret|;
    assert 0 < pad <= BLOCK_SIZE;
    assert forall i :: |secret| <= i < |padded| ==> padded[i] == pad;
  }

  /** Without a recorded length, one to eight equal bytes that count themselves are removed, and nothing else is. */
  lemma {:induction false} UnpadExactly(data: Bytes)
    ensures forall s: Bytes, p: Byte {:trigger Stamped(s, p)} ::
      1 <= p <= 8 && data == Stamped(s, p) ==> Unpad(data, None) == s
    ensures (forall s: Bytes, p: Byte {:trigger Stamped(s, p)} :: 1 <= p <= 8 ==> data != Stamped(s, p)) ==>
      Unpad(data, None) == data
  {
    forall s: Bytes, p: Byte | 1 <= p <= 8 && data == Stamped(s, p)
      ensures Unpad(data, None) == s
    {
      UnpadStamped(s, p);
    }
    var pad := if data == [] then 0 else data[|data| - 1];
    if 0 < pad <= 8 && pad <= |data| && forall i :: |data| - pad <= i < |data| ==> data[i] == pad {
      assert data == Stamped(data[..|data| - pad], pad);
    }
  }

  /** p copies of the byte p behind s. */
  ghost function Stamped(s: Bytes, p: Byte): Bytes {
    s + seq(p, _ => p)
  }

  lemma UnpadStamped(s: Bytes, p: Byte)
    requires 1 <= p <= 8
    ensures Unpad(Stamped(s, p), None) == s
  {
    var data := Stamped(s, p);
    assert |data| == |s| + p && forall i :: |s| <= i < |data| ==> data[i] == p;
    assert data[..|s|] == s;
  }

  /** A recorded length cuts what is at least that long, and leaves the rest as it is. */
  lemma UnpadByLength(data: Bytes, n: nat)
    ensures |Unpad(data, Some(n))| == Min(n, |data|) && Unpad(data, Some(n)) <= data
  {
  }

  /** A random word becomes its own residue, or one when the modulus divides it. */
  lemma FieldElementExactly(word: nat)
    ensures if Cong(word, 0) then FieldElement(word) == 1 else FieldElement(word) < P && Cong(FieldElement(word), word)
  {
    CongMod(word, 0);
    CongResidue(word);
  }

  /** The same when the recorded length and hash are missing, as long as the number of blocks is known. */
  lemma ReconstructByPadding(secret: Bytes, threshold: nat, total: nat, draw: Randomness,
                             sha256: Sha256, picked: seq<Share>, perBlock: nat)
    requires 2 <= threshold <= total < 0x1_0000_0000 && threshold <= perBlock
    requires Selection(picked, perBlock, Padded(secret), threshold, total, draw, NumBlocks(|secret|))
    ensures Reconstructed(picked, Metadata(false, None, None, Some(NumBlocks(|secret|))), sha256) == Recovered(secret)
  {
    var n, padded := NumBlocks(|secret|), Padded(secret);
    BlocksRecovered(picked, perBlock, padded, threshold, total, draw, n, n);
    MultipleIsDivisible(n, perBlock);
    DivideProduct(n, perBlock);
    assert padded[..n * BLOCK_SIZE] == padded;
    UnpadPadded(secret);
  }

  // ---------------------------------------------------------------- what is answered

  /** The answers that do not depend on the shares' values, and the recorded hash of what is recovered. */
  lemma ReconstructionAnswers(shares: seq<Share>, metadata: Metadata, sha256: Sha256)
    ensures var r, k := Reconstructed(shares, metadata, sha256), |shares|;
      var n := if metadata.numBlocks == None then 1 else metadata.numBlocks.value;
      && (r == NoShares <==> k == 0)
      && (r == LessThanOnePerBlock <==> 0 < k < n)
      && (r == UnevenShares <==> 0 < k && n <= k && (n == 0 || k % n != 0))
      && (r == HashMismatch ==> metadata.secretHash.Some?)
      && (r.Recovered? && metadata.secretHash.Some? ==> sha256(r.secret) == metadata.secretHash.value)
  {
  }

  /** With the hash of a secret recorded, any shares whatsoever give that secret, a refusal, or a collision of the hash. */
  lemma HashGuards(secret: Bytes, shares: seq<Share>, metadata: Metadata, sha256: Sha256)
    requires metadata.secretHash == Some(sha256(secret))
    ensures var r := Reconstructed(shares, metadata, sha256);
      r.Recovered? ==> r.secret == secret || (r.secret != secret && sha256(r.secret) == sha256(secret))
  {
    ReconstructionAnswers(shares, metadata, sha256);
  }

  lemma {:induction false} ChangedValue(pre: seq<int>, xs: seq<int>, ys: seq<int>, i: nat, y: int)
    requires |xs| == |ys| && i < |xs|
    ensures Lagrange(pre, xs, ys[i := y])
         == Lagrange(pre, xs, ys) + (y - ys[i]) * Coefficient(pre + xs[..i] + xs[i + 1..], xs[i])
    decreases |xs|
  {
    var zs := ys[i := y];
    if i == 0 {
      assert zs[1..] == ys[1..] && pre + xs[..0] + xs[1..] == pre + xs[1..];
      var k := Coefficient(pre + xs[1..], xs[0]);
      assert y * k == ys[0] * k + (y - ys[0]) * k;
    } else {
      ChangedValue(pre + [xs[0]], xs[1..], ys[1..], i - 1, y);
      assert zs[1..] == ys[1..][i - 1 := y];
      assert pre + [xs[0]] + xs[1..][..i - 1] + xs[1..][i..] == pre + xs[..i] + xs[i + 1..];
    }
  }

  /** No share has weight zero. */
  lemma {:induction false} WeightIsUnit(xs: seq<int>, i: nat) returns (k: int)
    requires Distinct(xs) && NonZero(xs) && i < |xs|
    ensures Cong(Coefficient(xs[..i] + xs[i + 1..], xs[i]) * k, 1)
  {
    var others, x := xs[..i] + xs[i + 1..], xs[i];
    assert xs == xs[..i] + [x] + xs[i + 1..];
    OthersApart(xs[..i], x, xs[i + 1..]);
    var p, d := Product(others), Differences(others, x);
    ProductInvertsWeight(others);
    WeightInvertsDifferences(others, x);
    UnitNotZero(d, Weight(others, x));
    InverseIsInverse(d);
    k := Weight(others, 0) * d;
    CongMul(p * Weight(others, 0), 1, d * Inverse(d), 1);
    assert p * Weight(others, 0) * (d * Inverse(d)) == p * Inverse(d) * k;
  }

  lemma UnitNotZero(a: int, b: int)
    requires Cong(a * b, 1)
    ensures a % P != 0
  {
    if a % P == 0 {
      CongMod(a, 0);
      CongRefl(b);
      CongMul(a, 0, b, b);
      CongMod(a * b, 0);
      CongMod(a * b, 1);
    }
  }

  lemma UnitCancels(d: int, c: int, k: int)
    requires Cong(c * k, 1) && Cong(d * c, 0)
    ensures Cong(d, 0)
  {
    CongRefl(k);
    CongMul(d * c, 0, k, k);
    CongDrop(c * k, d);
    assert d * c * k == c * k * d;
    CongSym(c * k * d, d);
    CongTrans(d, c * k * d, 0);
  }

  /** A different value in one of a block's shares always changes the value that is recovered for the block. */
  lemma {:induction false} ChangedShareChangesBlock(block: seq<Share>, i: nat, y: nat)
    requires i < |block| && (forall j :: 0 <= j < |block| ==> 1 <= block[j].x < 0x1_0000_0000)
    requires forall j, k :: 0 <= j < k < |block| ==> block[j].x != block[k].x
    requires (y - block[i].y) % P != 0
    ensures BlockSecret(block[i := block[i].(y := y)]) != BlockSecret(block)
  {
    var changed := block[i := block[i].(y := y)];
    var xs, ys, zs := Xs(block), Ys(block), Ys(changed);
    assert Xs(changed) == xs && zs == ys[i := y];
    SmallIndices(xs, 0xFFFF_FFFF);
    ChangedValue([], xs, ys, i, y);
    assert [] + xs[..i] + xs[i + 1..] == xs[..i] + xs[i + 1..];
    var k := WeightIsUnit(xs, i);
    SumsDiffer(Lagrange([], xs, ys), y - ys[i], Coefficient(xs[..i] + xs[i + 1..], xs[i]), k);
  }

  lemma SumsDiffer(a: int, d: int, c: int, k: int)
    requires d % P != 0 && Cong(c * k, 1)
    ensures (a + d * c) % P != a % P
  {
    if (a + d * c) % P == a % P {
      CongMod(a + d * c, a);
      CongFrom(d * c, 0, Quotient(a + d * c, a));
      UnitCancels(d, c, k);
      CongMod(d, 0);
    }
  }

  // ---------------------------------------------------------------- commitments to the coefficients

  lemma CoefficientsFit(padded: Bytes, threshold: nat, draw: Randomness, b: nat)
    requires threshold > 0 && (b + 1) * BLOCK_SIZE <= |padded|
    ensures forall i :: 0 <= i < threshold ==> CoefficientsOf(padded, threshold, draw, b)[i] < P
  {
    BlockValueFits(Block(padded, b));
  }

  /**
   Of all coefficients for a block, the commitments of a split accept those that were dealt, and their
   beginnings; whatever else they accept exhibits a collision of the kept digest bytes.
   */
  lemma CommitmentsAcceptDealt(padded: Bytes, threshold: nat, draw: Randomness, sha256: Sha256, n: nat,
                               b: nat, d: seq<nat>)
    requires threshold > 0 && n * BLOCK_SIZE <= |padded| && b < n && forall i :: 0 <= i < |d| ==> d[i] < TWO_64
    ensures var c := CoefficientsOf(padded, threshold, draw, b);
      var own := OfBlock(AllCommitments(Dealt(padded, threshold, draw, n), sha256), b);
      Matches(d, own, b, sha256)
      <==> (&& |d| <= threshold
            && forall i :: 0 <= i < |d| ==> d[i] == c[i] || Collide(Input(b, i, d[i]), Input(b, i, c[i]), sha256))
  {
    CommitmentsOfBlock(Dealt(padded, threshold, draw, n), b, sha256);
    CoefficientsFit(padded, threshold, draw, b);
    CommitmentsBind(CoefficientsOf(padded, threshold, draw, b), d, b, sha256);
  }
}
