/** Types shared by the models. */
module Common {

  datatype Option<+T> = None | Some(value: T)

  type Byte = b: int | 0 <= b < 256

  type Bytes = seq<Byte>

  /** Number of values of an unsigned integer of eight bytes. */
  const TWO_64: nat := 0x1_0000_0000_0000_0000

  function Max(a: int, b: int): int {
    if a < b then b else a
  }

  function Min(a: int, b: int): int {
    if a < b then a else b
  }

  /** What was done, and when. */
  datatype Timed<+T, +Op> = Timed(at: T, op: Op)

  /** The clock never goes back. */
  ghost predicate Monotone<Op>(evs: seq<Timed<int, Op>>) {
    forall i, j :: 0 <= i < j < |evs| ==> evs[i].at <= evs[j].at
  }

  function LastInstant<Op>(evs: seq<Timed<nat, Op>>): nat {
    if evs == [] then 0 else evs[|evs| - 1].at
  }

  /** The n-byte big-endian form of v, keeping the low n bytes. */
  function BigEndian(v: nat, n: nat): (r: Bytes)
    ensures |r| == n
  {
    if n == 0 then [] else BigEndian(v / 256, n - 1) + [v % 256]
  }

  function FromBigEndian(s: Bytes): nat {
    if s == [] then 0 else FromBigEndian(s[..|s| - 1]) * 256 + s[|s| - 1]
  }

  /** 256 to the power n: one more than the largest n-byte value. */
  function ByteRange(n: nat): (r: nat)
    ensures r > 0
  {
    if n == 0 then 1 else 256 * ByteRange(n - 1)
  }

  lemma ByteRanges()
    ensures ByteRange(1) == 256 && ByteRange(2) == 65536 && ByteRange(3) == 0x100_0000
    ensures ByteRange(4) == 0x1_0000_0000 && ByteRange(7) == 0x100_0000_0000_0000 && ByteRange(8) == TWO_64
  {
    assert ByteRange(3) == 256 * ByteRange(2);
    assert ByteRange(4) == 256 * ByteRange(3);
    assert ByteRange(5) == 256 * ByteRange(4);
    assert ByteRange(6) == 256 * ByteRange(5);
    assert ByteRange(7) == 256 * ByteRange(6);
  }

  lemma {:induction false} FromBigEndianBound(s: Bytes)
    ensures FromBigEndian(s) < ByteRange(|s|)
  {
    if s != [] {
      FromBigEndianBound(s[..|s| - 1]);
    }
  }

  /** Writing back a value that was read gives the bytes it was read from. */
  lemma {:induction false} BigEndianOfRead(s: Bytes)
    ensures BigEndian(FromBigEndian(s), |s|) == s
  {
    if s != [] {
      var init, last := s[..|s| - 1], s[|s| - 1];
      BigEndianOfRead(init);
      var v := FromBigEndian(init);
      assert (v * 256 + last) / 256 == v && (v * 256 + last) % 256 == last;
      assert s == init + [last];
    }
  }

  /** Reading back a value that fits gives the value that was written. */
  lemma {:induction false} ReadOfBigEndian(v: nat, n: nat)
    requires v < ByteRange(n)
    ensures FromBigEndian(BigEndian(v, n)) == v
  {
    if n > 0 {
      ReadOfBigEndian(v / 256, n - 1);
      var s := BigEndian(v, n);
      assert s[..|s| - 1] == BigEndian(v / 256, n - 1);
    }
  }

  /** The n-byte little-endian form of v. */
  function LittleEndian(v: nat, n: nat): (r: Bytes)
    ensures |r| == n
  {
    if n == 0 then [] else [v % 256] + LittleEndian(v / 256, n - 1)
  }

  function FromLittleEndian(s: Bytes): nat {
    if s == [] then 0 else s[0] + 256 * FromLittleEndian(s[1..])
  }

  lemma {:induction false} LittleEndianInjective(v: nat, w: nat, n: nat)
    requires v < ByteRange(n) && w < ByteRange(n) && LittleEndian(v, n) == LittleEndian(w, n)
    ensures v == w
  {
    if n > 0 {
      var a, b := LittleEndian(v, n), LittleEndian(w, n);
      assert a[0] == v % 256 && b[0] == w % 256;
      assert a[1..] == LittleEndian(v / 256, n - 1) && b[1..] == LittleEndian(w / 256, n - 1);
      LittleEndianInjective(v / 256, w / 256, n - 1);
    }
  }

  lemma FromLittleEndianInjective(s: Bytes, t: Bytes)
    requires |s| == |t| && FromLittleEndian(s) == FromLittleEndian(t)
    ensures s == t
  {
    LittleEndianOfRead(s);
    LittleEndianOfRead(t);
  }

  /** Reading back a value that fits gives the value that was written, its lowest byte first. */
  lemma {:induction false} ReadOfLittleEndian(v: nat, n: nat)
    requires v < ByteRange(n)
    ensures FromLittleEndian(LittleEndian(v, n)) == v
    ensures n > 0 ==> LittleEndian(v, n)[0] == v % 256
  {
    if n > 0 {
      ReadOfLittleEndian(v / 256, n - 1);
      assert LittleEndian(v, n)[1..] == LittleEndian(v / 256, n - 1);
    }
  }

  lemma {:induction false} LittleEndianOfRead(s: Bytes)
    ensures LittleEndian(FromLittleEndian(s), |s|) == s
  {
    if s != [] {
      LittleEndianOfRead(s[1..]);
      var v := FromLittleEndian(s[1..]);
      assert (s[0] + 256 * v) % 256 == s[0] && (s[0] + 256 * v) / 256 == v;
      assert s == [s[0]] + s[1..];
    }
  }

  /** Equal concatenations whose first parts have the same length are equal part by part. */
  lemma SameSplit(a: Bytes, b: Bytes, c: Bytes, d: Bytes)
    requires |a| == |c| && a + b == c + d
    ensures a == c && b == d
  {
    assert (a + b)[..|a|] == a && (c + d)[..|c|] == c;
    assert (a + b)[|a|..] == b && (c + d)[|c|..] == d;
  }
}
