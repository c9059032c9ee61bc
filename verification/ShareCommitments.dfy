/**
 Commitments to the coefficients of a shared block: eight bytes of a digest over the block, the
 place and the coefficient. SHA-256 is a parameter.
 */
module ShareCommitments {
  import opened Common

  type Sha256 = Bytes -> Digest

  type Digest = s: Bytes | |s| == 32 witness seq(32, _ => 0)

  datatype Commitment = Commitment(blockIndex: nat, index: nat, value: nat)

  datatype Verification = Valid | NoCommitments | Mismatch(place: nat) | OutOfBounds

  /** The bytes that are hashed for coefficient a at place i of block b. */
  function Input(b: nat, i: nat, a: nat): Bytes {
    LittleEndian(b, 4) + (LittleEndian(i, 4) + LittleEndian(a, 8))
  }

  function ValueOf(b: nat, i: nat, a: nat, sha256: Sha256): nat {
    FromLittleEndian(sha256(Input(b, i, a))[..8])
  }

  /** The commitments to a block's coefficients, in order. */
  function Commitments(c: seq<nat>, b: nat, sha256: Sha256): seq<Commitment> {
    seq(|c|, i requires 0 <= i < |c| => Commitment(b, i, ValueOf(b, i, c[i], sha256)))
  }

  /** The commitments of one block, in order. */
  function OfBlock(cs: seq<Commitment>, b: nat): seq<Commitment> {
    if cs == [] then []
    else
      var rest, last := OfBlock(cs[..|cs| - 1], b), cs[|cs| - 1];
      if last.blockIndex == b then rest + [last] else rest
  }

  /** The coefficients are accepted exactly when each has the value committed to in its place. */
  method VerifyCoefficients(c: seq<nat>, cs: seq<Commitment>, b: nat, sha256: Sha256) returns (r: Verification)
    ensures r == Valid <==> Matches(c, OfBlock(cs, b), b, sha256)
    ensures r == NoCommitments <==> OfBlock(cs, b) == []
    ensures r.Mismatch? ==>
      && r.place < |c| && r.place < |OfBlock(cs, b)|
      && Matches(c[..r.place], OfBlock(cs, b), b, sha256)
      && ValueOf(b, r.place, c[r.place], sha256) != OfBlock(cs, b)[r.place].value
    ensures r == OutOfBounds ==>
      |c| > |OfBlock(cs, b)| && Matches(c[..|OfBlock(cs, b)|], OfBlock(cs, b), b, sha256)
  {
    var own: seq<Commitment> := [];
    for n := 0 to |cs|
      invariant own == OfBlock(cs[..n], b)
    {
      assert cs[..n + 1][..n] == cs[..n];
      if cs[n].blockIndex == b {
        own := own + [cs[n]];
      }
    }
    assert cs[..|cs|] == cs;
    if own == [] {
      return NoCommitments;
    }
    for i := 0 to |c|
      invariant Matches(c[..i], own, b, sha256)
    {
      if i >= |own| {
        return OutOfBounds;
      }
      if ValueOf(b, i, c[i], sha256) != own[i].value {
        return Mismatch(i);
      }
    }
    assert c[..|c|] == c;
    r := Valid;
  }

  ghost predicate Matches(c: seq<nat>, own: seq<Commitment>, b: nat, sha256: Sha256) {
    && own != [] && |c| <= |own|
    && forall i :: 0 <= i < |c| ==> ValueOf(b, i, c[i], sha256) == own[i].value
  }

  // ---------------------------------------------------------------- what a commitment fixes

  lemma InputInjective(b: nat, i: nat, a: nat, a': nat)
    requires a < TWO_64 && a' < TWO_64 && Input(b, i, a) == Input(b, i, a')
    ensures a == a'
  {
    var x, y := LittleEndian(i, 4) + LittleEndian(a, 8), LittleEndian(i, 4) + LittleEndian(a', 8);
    SameSplit(LittleEndian(b, 4), x, LittleEndian(b, 4), y);
    SameSplit(LittleEndian(i, 4), LittleEndian(a, 8), LittleEndian(i, 4), LittleEndian(a', 8));
    ByteRanges();
    LittleEndianInjective(a, a', 8);
  }

  /** The hashed bytes: four for the block, four for the place and eight for the coefficient, lowest byte first. */
  lemma {:induction false} InputLayout(b: nat, i: nat, a: nat)
    requires b < 0x1_0000_0000 && i < 0x1_0000_0000 && a < TWO_64
    ensures var s := Input(b, i, a);
      && |s| == 16
      && FromLittleEndian(s[..4]) == b && FromLittleEndian(s[4..8]) == i && FromLittleEndian(s[8..]) == a
      && s[0] == b % 256 && s[4] == i % 256 && s[8] == a % 256
  {
    var s := Input(b, i, a);
    assert s[..4] == LittleEndian(b, 4) && s[4..8] == LittleEndian(i, 4) && s[8..] == LittleEndian(a, 8);
    ByteRanges();
    ReadOfLittleEndian(b, 4);
    ReadOfLittleEndian(i, 4);
    ReadOfLittleEndian(a, 8);
  }

  /** The kept value is the first eight bytes of the digest, lowest first. */
  lemma ValueLayout(b: nat, i: nat, a: nat, sha256: Sha256)
    ensures LittleEndian(ValueOf(b, i, a, sha256), 8) == sha256(Input(b, i, a))[..8]
  {
    LittleEndianOfRead(sha256(Input(b, i, a))[..8]);
  }

  /** Every commitment names its block and place and keeps eight digest bytes of its own coefficient. */
  lemma CommitmentAt(c: seq<nat>, b: nat, i: nat, sha256: Sha256)
    requires i < |c|
    ensures var cs := Commitments(c, b, sha256);
      && |cs| == |c| && cs[i].blockIndex == b && cs[i].index == i
      && LittleEndian(cs[i].value, 8) == sha256(LittleEndian(b, 4) + (LittleEndian(i, 4) + LittleEndian(c[i], 8)))[..8]
  {
    ValueLayout(b, i, c[i], sha256);
  }

  /** Two different inputs whose digests agree on the eight bytes that are kept. */
  ghost predicate Collide(s: Bytes, t: Bytes, sha256: Sha256) {
    s != t && sha256(s)[..8] == sha256(t)[..8]
  }

  lemma ValueFixes(b: nat, i: nat, a: nat, a': nat, sha256: Sha256)
    requires a < TWO_64 && a' < TWO_64
    ensures ValueOf(b, i, a, sha256) == ValueOf(b, i, a', sha256)
       <==> a == a' || Collide(Input(b, i, a), Input(b, i, a'), sha256)
  {
    if ValueOf(b, i, a, sha256) == ValueOf(b, i, a', sha256) && a != a' {
      FromLittleEndianInjective(sha256(Input(b, i, a))[..8], sha256(Input(b, i, a'))[..8]);
      if Input(b, i, a) == Input(b, i, a') {
        InputInjective(b, i, a, a');
      }
    }
  }

  /** What is accepted agrees with the committed coefficients in every place, or exhibits a collision there. */
  lemma CommitmentsBind(c: seq<nat>, d: seq<nat>, b: nat, sha256: Sha256)
    requires c != []
    requires (forall i :: 0 <= i < |c| ==> c[i] < TWO_64) && (forall i :: 0 <= i < |d| ==> d[i] < TWO_64)
    ensures Matches(d, Commitments(c, b, sha256), b, sha256)
       <==> (&& |d| <= |c|
             && forall i :: 0 <= i < |d| ==> d[i] == c[i] || Collide(Input(b, i, d[i]), Input(b, i, c[i]), sha256))
  {
    var own := Commitments(c, b, sha256);
    forall i | 0 <= i < |d| && i < |c|
      ensures ValueOf(b, i, d[i], sha256) == own[i].value
         <==> d[i] == c[i] || Collide(Input(b, i, d[i]), Input(b, i, c[i]), sha256)
    {
      ValueFixes(b, i, d[i], c[i], sha256);
    }
  }

  // ---------------------------------------------------------------- the commitments of all blocks

  lemma {:induction false} OfBlockConcat(l: seq<Commitment>, r: seq<Commitment>, b: nat)
    ensures OfBlock(l + r, b) == OfBlock(l, b) + OfBlock(r, b)
  {
    if r == [] {
      assert l + r == l;
    } else {
      OfBlockConcat(l, r[..|r| - 1], b);
      assert (l + r)[..|l + r| - 1] == l + r[..|r| - 1];
    }
  }

  lemma {:induction false} OfSameBlock(cs: seq<Commitment>, b: nat, k: nat)
    requires forall i :: 0 <= i < |cs| ==> cs[i].blockIndex == k
    ensures OfBlock(cs, b) == if k == b then cs else []
  {
    if cs != [] {
      OfSameBlock(cs[..|cs| - 1], b, k);
    }
  }

  lemma OfOneBlock(c: seq<nat>, b: nat, k: nat, sha256: Sha256)
    ensures OfBlock(Commitments(c, k, sha256), b) == if k == b then Commitments(c, b, sha256) else []
  {
    OfSameBlock(Commitments(c, k, sha256), b, k);
  }

  /** The commitments to the coefficients of all blocks, block after block. */
  function AllCommitments(dealt: seq<seq<nat>>, sha256: Sha256): seq<Commitment> {
    if dealt == [] then []
    else
      var n := |dealt| - 1;
      AllCommitments(dealt[..n], sha256) + Commitments(dealt[n], n, sha256)
  }

  lemma CommitmentsNotEmpty(dealt: seq<seq<nat>>, sha256: Sha256)
    requires dealt != [] && dealt[|dealt| - 1] != []
    ensures AllCommitments(dealt, sha256) != []
  {
  }

  /** Filtering by a block gives back that block's commitments, for every block that was dealt. */
  lemma {:induction false} CommitmentsOfBlock(dealt: seq<seq<nat>>, b: nat, sha256: Sha256)
    ensures OfBlock(AllCommitments(dealt, sha256), b) == if b < |dealt| then Commitments(dealt[b], b, sha256) else []
  {
    if dealt != [] {
      var n := |dealt| - 1;
      CommitmentsOfBlock(dealt[..n], b, sha256);
      OfBlockConcat(AllCommitments(dealt[..n], sha256), Commitments(dealt[n], n, sha256), b);
      OfOneBlock(dealt[n], b, n, sha256);
    }
  }
}
