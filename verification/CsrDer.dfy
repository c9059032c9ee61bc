/**
 The hand-written encoder of certification requests (section 4.1 of RFC 2986), against a
 reader of the basic encoding rules for definite lengths (section 8.1.3 of ITU-T X.690).
 A strict reader also insists on the shortest length form (section 10.1).
 */
module CsrDer {
  import opened Common

  const SM2_PK_OID: Bytes := [0x2A, 0x81, 0x1C, 0xCF, 0x55, 0x01, 0x82, 0x2D]
  const CN_OID: Bytes := [0x55, 0x04, 0x03]
  const VERSION: Bytes := [0x02, 0x01, 0x00]
  const ATTRIBUTES: Bytes := [0xA0, 0x00]

  const SEQUENCE: Byte := 0x30
  const SET: Byte := 0x31
  const OID: Byte := 0x06
  const UTF8_STRING: Byte := 0x0C
  const BIT_STRING: Byte := 0x03

  // ---------------------------------------------------------------- what the encoder writes

  /** A value with a one-byte length, whatever its size. */
  function Short(tag: Byte, content: Bytes): Bytes {
    [tag, |content| % 256] + content
  }

  /** One length byte below 128, otherwise the marker 0x82 and two bytes. */
  function Length(n: nat): Bytes {
    if n < 128 then [n] else [0x82, n / 256 % 256, n % 256]
  }

  function Wrapped(tag: Byte, content: Bytes): Bytes {
    [tag] + Length(|content|) + content
  }

  function NameSet(cn: Bytes): (r: Bytes)
    ensures |r| == |cn| + 11
  {
    Short(SET, Short(SEQUENCE, Short(OID, CN_OID) + Short(UTF8_STRING, cn)))
  }

  function SubjectName(cn: Bytes): (r: Bytes)
    ensures |r| == |cn| + 13
  {
    Short(SEQUENCE, NameSet(cn))
  }

  const ALGORITHM: Bytes := [0x30, 12, 0x06, 8, 0x2A, 0x81, 0x1C, 0xCF, 0x55, 0x01, 0x82, 0x2D, 0x05, 0x00]

  function KeyBits(key: Bytes): Bytes {
    Wrapped(BIT_STRING, [0] + key)
  }

  function SpkiContent(key: Bytes): Bytes {
    ALGORITHM + KeyBits(key)
  }

  function Spki(key: Bytes): Bytes {
    Wrapped(SEQUENCE, SpkiContent(key))
  }

  function CriContent(cn: Bytes, key: Bytes): Bytes {
    VERSION + (SubjectName(cn) + (Spki(key) + ATTRIBUTES))
  }

  function Cri(cn: Bytes, key: Bytes): Bytes {
    Wrapped(SEQUENCE, CriContent(cn, key))
  }

  /** The subject name, pushed byte by byte into nested buffers. */
  method BuildSubjectName(cn: Bytes) returns (subject: Bytes)
    ensures subject == SubjectName(cn)
  {
    var cnOid: Bytes := [0x06];
    cnOid := cnOid + [|CN_OID| % 256] + CN_OID;
    var name: Bytes := [0x30];
    var innerLen := |cnOid| + 2 + |cn|;
    name := name + [innerLen % 256] + cnOid + [0x0C] + [|cn| % 256] + cn;
    assert name == Short(SEQUENCE, Short(OID, CN_OID) + Short(UTF8_STRING, cn));
    var nameSet: Bytes := [0x31];
    nameSet := nameSet + [|name| % 256] + name;
    assert nameSet == NameSet(cn);
    subject := [0x30];
    subject := subject + [|nameSet| % 256] + nameSet;
  }

  /** Push a length in one byte or behind the marker 0x82. */
  method PushLength(v: Bytes, n: nat) returns (r: Bytes)
    ensures r == v + Length(n)
  {
    if n < 128 {
      r := v + [n];
    } else {
      r := v + [0x82];
      r := r + [n / 256 % 256];
      r := r + [n % 256];
    }
  }

  method BuildAlgorithm() returns (alg: Bytes)
    ensures alg == ALGORITHM
  {
    var pkOid: Bytes := [0x06];
    pkOid := pkOid + [|SM2_PK_OID| % 256] + SM2_PK_OID;
    var algContent := pkOid + [0x05, 0x00];
    alg := PushLength([0x30], |algContent|);
    alg := alg + algContent;
  }

  method BuildSpki(key: Bytes) returns (spki: Bytes)
    ensures spki == Spki(key)
  {
    var alg := BuildAlgorithm();
    var bits := PushLength([0x03], 1 + |key|);
    bits := bits + [0x00] + key;
    assert bits == KeyBits(key) by {
      assert |[0] + key| == 1 + |key|;
    }
    spki := PushLength([0x30], |alg| + |bits|);
    spki := spki + alg + bits;
    assert |alg + bits| == |alg| + |bits|;
  }

  /** The certification request info. */
  method BuildCri(cn: Bytes, key: Bytes) returns (cri: Bytes)
    ensures cri == Cri(cn, key)
  {
    var version: Bytes := [0x02, 0x01, 0x00];
    var attributes: Bytes := [0xA0, 0x00];
    var subject := BuildSubjectName(cn);
    var spki := BuildSpki(key);
    var criLen := |version| + |subject| + |spki| + |attributes|;
    cri := PushLength([0x30], criLen);
    ghost var header := cri;
    cri := cri + version + subject + spki + attributes;
    FourParts(header, version, subject, spki, attributes);
  }

  lemma FourParts(h: Bytes, a: Bytes, b: Bytes, c: Bytes, d: Bytes)
    ensures h + a + b + c + d == h + (a + (b + (c + d)))
    ensures |a + (b + (c + d))| == |a| + |b| + |c| + |d|
  {
  }

  // ---------------------------------------------------------------- the reader

  /** A length and the bytes after it. A strict reader takes only the shortest form. */
  function ReadLength(s: Bytes, strict: bool): (r: Option<(nat, Bytes)>)
    ensures r.Some? ==> |r.value.1| < |s|
  {
    if s == [] then None
    else if s[0] < 128 then Some((s[0], s[1..]))
    else
      var k := s[0] - 128;
      if k == 0 || k == 127 || |s| < 1 + k then None
      else
        var v := FromBigEndian(s[1..1 + k]);
        if strict && (v < 128 || s[1] == 0) then None else Some((v, s[1 + k..]))
  }

  /** The content of a value with the given tag, and the bytes after it. */
  function ReadValue(tag: Byte, s: Bytes, strict: bool): (r: Option<(Bytes, Bytes)>)
    ensures r.Some? ==> |r.value.0| + |r.value.1| < |s|
  {
    if s == [] || s[0] != tag then None
    else
      match ReadLength(s[1..], strict)
      case None => None
      case Some((n, rest)) => if n <= |rest| then Some((rest[..n], rest[n..])) else None
  }

  /** The content of a value that fills s. */
  function ReadOnly(tag: Byte, s: Bytes, strict: bool): (r: Option<Bytes>)
    ensures r.Some? ==> |r.value| < |s|
  {
    match ReadValue(tag, s, strict)
    case None => None
    case Some((content, rest)) => if rest == [] then Some(content) else None
  }

  /** The common name in the content of a distinguished name of one attribute. */
  function ReadName(s: Bytes, strict: bool): (r: Option<Bytes>)
    ensures r.Some? ==> |r.value| <= |s|
  {
    match ReadOnly(SET, s, strict)
    case None => None
    case Some(t) =>
      match ReadOnly(SEQUENCE, t, strict)
      case None => None
      case Some(u) =>
        match ReadValue(OID, u, strict)
        case None => None
        case Some((oid, v)) => if oid == CN_OID then ReadOnly(UTF8_STRING, v, strict) else None
  }

  /** The key in the content of a public-key info for an SM2 key. */
  function ReadSpki(s: Bytes, strict: bool): Option<Bytes> {
    match ReadValue(SEQUENCE, s, strict)
    case None => None
    case Some((alg, rest)) =>
      match (ReadValue(OID, alg, strict), ReadOnly(BIT_STRING, rest, strict))
      case (Some((oid, params)), Some(bits)) =>
        if oid == SM2_PK_OID && params == [0x05, 0x00] && bits != [] && bits[0] == 0 then Some(bits[1..]) else None
      case _ => None
  }

  datatype Info = Info(version: nat, cn: Bytes, key: Bytes, attributes: Bytes)

  function ReadCri(s: Bytes, strict: bool): Option<Info> {
    match ReadOnly(SEQUENCE, s, strict)
    case None => None
    case Some(content) => ReadCriContent(content, strict)
  }

  function ReadCriContent(content: Bytes, strict: bool): Option<Info> {
    match ReadValue(0x02, content, strict)
    case None => None
    case Some((version, s)) =>
      match ReadValue(SEQUENCE, s, strict)
      case None => None
      case Some((name, t)) =>
        match ReadValue(SEQUENCE, t, strict)
        case None => None
        case Some((spki, u)) =>
          match (ReadName(name, strict), ReadSpki(spki, strict), ReadOnly(0xA0, u, strict))
          case (Some(cn), Some(key), Some(attributes)) => Some(Info(FromBigEndian(version), cn, key, attributes))
          case _ => None
  }

  // ---------------------------------------------------------------- single values

  lemma TwoBytes(a: Byte, b: Byte)
    ensures FromBigEndian([a, b]) == 256 * a + b
  {
    assert [a, b][..1] == [a];
    assert [a][..0] == [];
    assert FromBigEndian([a]) == a;
  }

  lemma TwoByteLength(n: nat)
    ensures 256 * (n / 256 % 256) + n % 256 == n % 65536
  {
  }

  /** A short value reads back exactly when its content is below 128 bytes. */
  lemma ReadShort(tag: Byte, c: Bytes, rest: Bytes, strict: bool)
    requires |c| < 128
    ensures ReadValue(tag, Short(tag, c) + rest, strict) == Some((c, rest))
  {
    var s := Short(tag, c) + rest;
    assert s[1..] == [|c|] + c + rest && s[1..][1..] == c + rest;
  }

  /** Whether the shortest form of a length is the one the encoder uses. */
  predicate Shortest(n: nat) {
    n < 128 || n >= 256
  }

  /** The pieces of a value with a two-byte length. */
  lemma LongForm(tag: Byte, hi: Byte, lo: Byte, t: Bytes)
    ensures var s := [tag] + ([0x82, hi, lo] + t);
      && s[0] == tag && s[1..] == [0x82, hi, lo] + t
      && s[1..][0] == 0x82 && s[1..][1] == hi && s[1..][1..3] == [hi, lo] && s[1..][3..] == t
  {
    assert ([tag] + ([0x82, hi, lo] + t))[1..] == [0x82, hi, lo] + t;
  }

  /** A wrapped value reads back when its length fits two bytes; a strict reader also wants it in the shortest form. */
  lemma ReadWrapped(tag: Byte, c: Bytes, rest: Bytes, strict: bool)
    requires |c| < 65536
    ensures ReadValue(tag, Wrapped(tag, c) + rest, strict)
         == if strict && !Shortest(|c|) then None else Some((c, rest))
  {
    var s, n := Wrapped(tag, c) + rest, |c|;
    if n < 128 {
      assert s[1..] == [n] + c + rest && s[1..][1..] == c + rest;
    } else {
      var hi, lo := n / 256 % 256, n % 256;
      assert s == [tag] + ([0x82, hi, lo] + (c + rest));
      LongForm(tag, hi, lo, c + rest);
      assert (c + rest)[..n] == c && (c + rest)[n..] == rest;
      TwoBytes(hi, lo);
      TwoByteLength(n);
    }
  }

  /** A longer value is never read whole: its length was cut to two bytes. */
  lemma ReadTooLong(tag: Byte, c: Bytes, strict: bool)
    requires |c| >= 65536
    ensures ReadOnly(tag, Wrapped(tag, c), strict) == None
  {
    var s, n := Wrapped(tag, c), |c|;
    var hi, lo := n / 256 % 256, n % 256;
    assert s == [tag] + ([0x82, hi, lo] + c);
    LongForm(tag, hi, lo, c);
    TwoBytes(hi, lo);
    TwoByteLength(n);
  }

  // ---------------------------------------------------------------- the parts

  lemma ReadBack(tag: Byte, c: Bytes, strict: bool)
    requires |c| < 128
    ensures ReadOnly(tag, Short(tag, c), strict) == Some(c)
  {
    ReadShort(tag, c, [], strict);
    assert Short(tag, c) + [] == Short(tag, c);
  }

  lemma NameReadsBack(cn: Bytes, strict: bool)
    requires |cn| <= 116
    ensures ReadName(NameSet(cn), strict) == Some(cn)
  {
    var v := Short(UTF8_STRING, cn);
    var u := Short(OID, CN_OID) + v;
    ReadBack(SET, Short(SEQUENCE, u), strict);
    ReadBack(SEQUENCE, u, strict);
    ReadShort(OID, CN_OID, v, strict);
    ReadBack(UTF8_STRING, cn, strict);
  }

  lemma AlgorithmReadsBack(rest: Bytes, strict: bool)
    ensures var alg: Bytes := [0x06, 8, 0x2A, 0x81, 0x1C, 0xCF, 0x55, 0x01, 0x82, 0x2D, 0x05, 0x00];
      && ReadValue(SEQUENCE, ALGORITHM + rest, strict) == Some((alg, rest))
      && ReadValue(OID, alg, strict) == Some((SM2_PK_OID, [0x05, 0x00]))
  {
    var alg: Bytes := [0x06, 8, 0x2A, 0x81, 0x1C, 0xCF, 0x55, 0x01, 0x82, 0x2D, 0x05, 0x00];
    assert ALGORITHM == Short(SEQUENCE, alg);
    ReadShort(SEQUENCE, alg, rest, strict);
    assert alg == Short(OID, SM2_PK_OID) + [0x05, 0x00];
    ReadShort(OID, SM2_PK_OID, [0x05, 0x00], strict);
  }

  lemma SpkiReadsBack(key: Bytes, strict: bool)
    requires 1 + |key| < 65536
    ensures ReadSpki(SpkiContent(key), strict) == if strict && !Shortest(1 + |key|) then None else Some(key)
  {
    AlgorithmReadsBack(KeyBits(key), strict);
    ReadWrapped(BIT_STRING, [0] + key, [], strict);
    assert KeyBits(key) + [] == KeyBits(key);
    assert ([0] + key)[1..] == key;
  }

  /** The content length of the certification request info. */
  function CriLen(cn: Bytes, key: Bytes): nat {
    |CriContent(cn, key)|
  }

  lemma PartsFit(cn: Bytes, key: Bytes)
    ensures 1 + |key| < |SpkiContent(key)| < CriLen(cn, key)
  {
  }

  predicate AllShortest(cn: Bytes, key: Bytes) {
    Shortest(1 + |key|) && Shortest(|SpkiContent(key)|) && Shortest(CriLen(cn, key))
  }

  // ---------------------------------------------------------------- long names

  lemma {:induction false} LeadingByte(s: Bytes)
    requires s != []
    ensures FromBigEndian(s) >= s[0] * ByteRange(|s| - 1)
  {
    if |s| > 1 {
      var init := s[..|s| - 1];
      LeadingByte(init);
      assert init[0] == s[0];
      assert s[0] * ByteRange(|s| - 1) == s[0] * ByteRange(|s| - 2) * 256;
    } else {
      assert s[..0] == [];
    }
  }

  lemma {:induction false} ByteRangeGrows(n: nat)
    requires n >= 2
    ensures ByteRange(n) >= 65536
  {
    if n == 2 {
      ByteRanges();
    } else {
      ByteRangeGrows(n - 1);
    }
  }

  /** The first bytes of the set in a subject name. */
  lemma NameSetStart(cn: Bytes)
    ensures var s, n := NameSet(cn), |cn|;
      s[0] == SET && s[1] == (n + 9) % 256 && s[2] == SEQUENCE
  {
  }

  lemma LongLengthRejected(k: Byte, s: Bytes, strict: bool)
    requires 131 <= k && |s| < 65536 && s != [] && s[0] == SET
    ensures match ReadLength([k] + s, strict) case Some((v, rest)) => v > |rest| case None => true
  {
    var m := k - 128;
    var all := [k] + s;
    if k < 255 && |all| >= 1 + m {
      var digits := all[1..1 + m];
      assert digits[0] == SET && |digits| == m;
      LeadingByte(digits);
      ByteRangeGrows(m - 1);
    }
  }

  /** How the bytes b and s are read as a length and a content of at most all of s. */
  ghost function Misread(b: Byte, s: Bytes, strict: bool): Option<Bytes> {
    match ReadLength([b] + s, strict)
    case None => None
    case Some((n, rest)) => if n <= |rest| then Some(rest[..n]) else None
  }

  lemma ReadsAsMisread(tag: Byte, b: Byte, s: Bytes, strict: bool)
    ensures match ReadValue(tag, [tag] + ([b] + s), strict)
      case Some((content, _)) => Misread(b, s, strict) == Some(content)
      case None => true
  {
    assert ([tag] + ([b] + s))[1..] == [b] + s;
  }

  predicate StartsWith(s: Bytes, b: Byte) {
    s != [] && s[0] == b
  }

  /** A name whose length byte is 128 or more or was cut: what is read is too short or does not start a set. */
  lemma MisreadLength(b: Byte, s: Bytes, strict: bool)
    requires 3 <= |s| < 65536 && s[0] == SET && s[2] == SEQUENCE && (b == 129 ==> s[1] == 127)
    ensures var c := Misread(b, s, strict); c.Some? ==> (b < 128 && |c.value| == b) || !StartsWith(c.value, SET)
  {
    var all := [b] + s;
    if b < 128 {
      assert all[1..] == s;
    } else if b == 129 {
      assert all[1..2] == [SET] && all[2..] == s[1..];
      assert FromBigEndian([SET]) == SET by { assert [SET][..0] == []; }
    } else if b == 130 {
      assert all[3..] == s[2..];
    } else if b >= 131 {
      LongLengthRejected(b, s, strict);
    }
  }

  /** A subject name of more than 116 bytes is never read back: its length byte means something else. */
  lemma LongNameMisread(cn: Bytes, tail: Bytes, strict: bool)
    requires |cn| > 116 && |cn| + 13 + |tail| < 65536
    ensures match ReadValue(SEQUENCE, SubjectName(cn) + tail, strict)
      case Some((name, rest)) => ReadName(name, strict) != Some(cn)
      case None => true
  {
    var b, s := (|cn| + 11) % 256, NameSet(cn) + tail;
    NameParts(cn, tail, b, s);
    MisreadLength(b, s, strict);
    ReadsAsMisread(SEQUENCE, b, s, strict);
    ShortContentIsNotLong(b, s, cn, strict);
  }

  lemma NameParts(cn: Bytes, tail: Bytes, b: Byte, s: Bytes)
    requires b == (|cn| + 11) % 256 && s == NameSet(cn) + tail
    ensures SubjectName(cn) + tail == [SEQUENCE] + ([b] + s)
    ensures |s| == |cn| + 11 + |tail| && s[0] == SET && s[2] == SEQUENCE && (b == 129 ==> s[1] == 127)
  {
    NameSetStart(cn);
    CutLength(|cn|);
    assert s[..3] == NameSet(cn)[..3];
  }

  lemma CutLength(n: nat)
    ensures (n + 11) % 256 == 129 ==> (n + 9) % 256 == 127
  {
  }

  lemma ShortContentIsNotLong(b: Byte, s: Bytes, cn: Bytes, strict: bool)
    requires |cn| > 116 && b == (|cn| + 11) % 256
    requires var c := Misread(b, s, strict); c.Some? ==> (b < 128 && |c.value| == b) || !StartsWith(c.value, SET)
    ensures var c := Misread(b, s, strict); c.Some? ==> ReadName(c.value, strict) != Some(cn)
  {
    var c := Misread(b, s, strict);
    if c.Some? && StartsWith(c.value, SET) {
      assert |c.value| == b < |cn|;
    }
  }

  // ---------------------------------------------------------------- the round trip

  /** The four values of a content, once each of them has been read. */
  lemma ReadParts(content: Bytes, version: Bytes, s: Bytes, name: Bytes, t: Bytes, spki: Bytes, u: Bytes, strict: bool)
    requires ReadValue(0x02, content, strict) == Some((version, s))
    requires ReadValue(SEQUENCE, s, strict) == Some((name, t))
    requires ReadValue(SEQUENCE, t, strict) == Some((spki, u))
    ensures ReadCriContent(content, strict) ==
      match (ReadName(name, strict), ReadSpki(spki, strict), ReadOnly(0xA0, u, strict))
      case (Some(cn), Some(key), Some(attributes)) => Some(Info(FromBigEndian(version), cn, key, attributes))
      case _ => None
  {
  }

  lemma VersionReads(rest: Bytes, strict: bool)
    ensures ReadValue(0x02, VERSION + rest, strict) == Some(([0], rest)) && FromBigEndian([0]) == 0
  {
    assert VERSION == Short(0x02, [0]);
    ReadShort(0x02, [0], rest, strict);
    assert [0][..0] == [];
  }

  lemma NoAttributes(strict: bool)
    ensures ReadOnly(0xA0, ATTRIBUTES, strict) == Some([])
  {
    assert ATTRIBUTES == Short(0xA0, []);
    ReadBack(0xA0, [], strict);
  }

  lemma ContentReads(cn: Bytes, key: Bytes, strict: bool)
    requires CriLen(cn, key) < 65536 && |cn| <= 116
    ensures ReadCriContent(CriContent(cn, key), strict)
         == if strict && !(Shortest(1 + |key|) && Shortest(|SpkiContent(key)|)) then None
            else Some(Info(0, cn, key, []))
  {
    var t := Spki(key) + ATTRIBUTES;
    var s := SubjectName(cn) + t;
    PartsFit(cn, key);
    VersionReads(s, strict);
    ReadShort(SEQUENCE, NameSet(cn), t, strict);
    ReadWrapped(SEQUENCE, SpkiContent(key), ATTRIBUTES, strict);
    if !strict || Shortest(|SpkiContent(key)|) {
      ReadParts(CriContent(cn, key), [0], s, NameSet(cn), t, SpkiContent(key), ATTRIBUTES, strict);
      NameReadsBack(cn, strict);
      SpkiReadsBack(key, strict);
      NoAttributes(strict);
    }
  }

  lemma LongNameContent(cn: Bytes, key: Bytes, strict: bool)
    requires CriLen(cn, key) < 65536 && |cn| > 116
    ensures ReadCriContent(CriContent(cn, key), strict) != Some(Info(0, cn, key, []))
  {
    var t := Spki(key) + ATTRIBUTES;
    VersionReads(SubjectName(cn) + t, strict);
    LongNameMisread(cn, t, strict);
  }

  /**
   Reading the encoder's output gives back version 0, the name, the key and no attributes,
   with no byte left over, exactly when the name has at most 116 bytes and the content is
   below 65536 bytes; a strict reader also needs every length outside 128 to 255.
   */
  lemma CriReadsBackExactly(cn: Bytes, key: Bytes, strict: bool)
    ensures ReadCri(Cri(cn, key), strict) == Some(Info(0, cn, key, []))
       <==> |cn| <= 116 && CriLen(cn, key) < 65536 && (strict ==> AllShortest(cn, key))
  {
    var content := CriContent(cn, key);
    if |content| >= 65536 {
      ReadTooLong(SEQUENCE, content, strict);
    } else {
      ReadWrapped(SEQUENCE, content, [], strict);
      assert Cri(cn, key) + [] == Cri(cn, key);
      if |cn| <= 116 {
        ContentReads(cn, key, strict);
      } else {
        LongNameContent(cn, key, strict);
      }
    }
  }

  /** With an uncompressed 65-byte key the encoding is distinguished exactly up to 25 bytes of name. */
  lemma DistinguishedUpTo25(cn: Bytes, key: Bytes)
    requires |key| == 65
    ensures ReadCri(Cri(cn, key), true) == Some(Info(0, cn, key, [])) <==> |cn| <= 25
  {
    assert |SpkiContent(key)| == 82 && CriLen(cn, key) == |cn| + 102;
    CriReadsBackExactly(cn, key, true);
  }

  // ---------------------------------------------------------------- the bytes themselves

  /** The name's bytes, for every name that can be read back. */
  lemma SubjectNameBytes(cn: Bytes)
    requires |cn| <= 116
    ensures SubjectName(cn)
         == [0x30, |cn| + 11, 0x31, |cn| + 9, 0x30, |cn| + 7, 0x06, 0x03, 0x55, 0x04, 0x03, 0x0C, |cn|] + cn
  {
  }

  /** The key's bytes, for an uncompressed 65-byte key. */
  lemma SpkiBytes(key: Bytes)
    requires |key| == 65
    ensures Spki(key)
         == [0x30, 0x52, 0x30, 0x0C, 0x06, 0x08, 0x2A, 0x81, 0x1C, 0xCF, 0x55, 0x01, 0x82, 0x2D, 0x05, 0x00,
             0x03, 0x42, 0x00] + key
  {
    assert KeyBits(key) == [0x03, 0x42, 0x00] + key;
    assert SpkiContent(key) == ALGORITHM + [0x03, 0x42, 0x00] + key;
    assert |SpkiContent(key)| == 0x52;
  }

  /** The whole info: its length in one byte up to 25 bytes of name and in three after that, then version, name, key and attributes. */
  lemma CriBytes(cn: Bytes, key: Bytes)
    requires |key| == 65 && |cn| <= 116
    ensures var n := |cn| + 102;
      Cri(cn, key)
      == (if n < 128 then [0x30, n] else [0x30, 0x82, 0x00, n])
       + ([0x02, 0x01, 0x00] + (SubjectName(cn) + (Spki(key) + [0xA0, 0x00])))
  {
    SpkiBytes(key);
    assert |CriContent(cn, key)| == |cn| + 102;
  }

  // ---------------------------------------------------------------- the whole request

  /** One value of any tag, header included, and the bytes after it. */
  function ReadElement(s: Bytes): Option<(Bytes, Bytes)> {
    if s == [] then None
    else
      match ReadValue(s[0], s, false)
      case None => None
      case Some((_, rest)) => Some((s[..|s| - |rest|], rest))
  }

  ghost predicate IsElement(s: Bytes) {
    ReadElement(s) == Some((s, []))
  }

  /** The outer length of a request: one, two or three bytes. */
  function RequestLength(n: nat): Bytes {
    if n < 128 then [n]
    else if n < 0x10000 then [0x82, n / 256 % 256, n % 256]
    else [0x83, n / 65536 % 256, n / 256 % 256, n % 256]
  }

  function Request(cri: Bytes, sigAlg: Bytes, sigValue: Bytes): Bytes {
    [SEQUENCE] + RequestLength(|cri| + |sigAlg| + |sigValue|) + (cri + (sigAlg + sigValue))
  }

  method BuildRequest(cn: Bytes, key: Bytes, sigAlg: Bytes, sign: Bytes -> Bytes) returns (csr: Bytes)
    ensures csr == Request(Cri(cn, key), sigAlg, sign(Cri(cn, key)))
  {
    var cri := BuildCri(cn, key);
    var sigValue := sign(cri);
    var innerLen := |cri| + |sigAlg| + |sigValue|;
    csr := PushRequestLength([0x30], innerLen);
    ghost var header := csr;
    csr := csr + cri + sigAlg + sigValue;
    FourParts(header, cri, sigAlg, sigValue, []);
    assert sigValue + [] == sigValue && header + cri + sigAlg + sigValue + [] == csr;
  }

  method PushRequestLength(v: Bytes, n: nat) returns (r: Bytes)
    ensures r == v + RequestLength(n)
  {
    if n < 128 {
      r := v + [n];
    } else if n < 0x10000 {
      r := v + [0x82] + [n / 256 % 256] + [n % 256];
    } else {
      r := v + [0x83] + [n / 65536 % 256] + [n / 256 % 256] + [n % 256];
    }
  }

  function ReadRequest(s: Bytes): Option<(Bytes, Bytes, Bytes)> {
    match ReadOnly(SEQUENCE, s, false)
    case None => None
    case Some(content) => ReadElements(content)
  }

  function ReadElements(content: Bytes): Option<(Bytes, Bytes, Bytes)> {
    match ReadElement(content)
    case None => None
    case Some((cri, t)) =>
      match ReadElement(t)
      case None => None
      case Some((alg, u)) =>
        match ReadElement(u)
        case None => None
        case Some((value, rest)) => if rest == [] then Some((cri, alg, value)) else None
  }

  lemma ReadThree(content: Bytes, cri: Bytes, alg: Bytes, value: Bytes)
    requires ReadElement(content) == Some((cri, alg + value)) && ReadElement(alg + value) == Some((alg, value))
    requires IsElement(value)
    ensures ReadElements(content) == Some((cri, alg, value))
  {
  }

  lemma ThreeBytes(a: Byte, b: Byte, c: Byte)
    ensures FromBigEndian([a, b, c]) == 65536 * a + 256 * b + c
  {
    assert [a, b, c][..2] == [a, b];
    TwoBytes(a, b);
  }

  lemma ThreeByteLength(n: nat)
    ensures FromBigEndian([n / 65536 % 256, n / 256 % 256, n % 256]) == n % 0x100_0000
  {
    var p, q := n / 256, n / 65536;
    assert q == p / 256;
    TwoByteLength(p);
    ThreeBytes(q % 256, p % 256, n % 256);
    Recombine(n, p);
  }

  lemma Recombine(n: nat, p: nat)
    requires p == n / 256
    ensures 256 * (p % 65536) + n % 256 == n % 0x100_0000
  {
  }

  lemma LongRequestContent(content: Bytes, digits: Bytes)
    requires |content| >= 0x10000 && |digits| == 3 && FromBigEndian(digits) == |content| % 0x100_0000
    ensures ReadOnly(SEQUENCE, [SEQUENCE] + ([0x83] + digits) + content, false)
         == if |content| < 0x100_0000 then Some(content) else None
  {
    var s := [SEQUENCE] + ([0x83] + digits) + content;
    assert s[1..] == [0x83] + digits + content;
    assert s[1..][1..4] == digits && s[1..][4..] == content;
    assert content[..|content|] == content;
  }

  /** The outer sequence reads back whole exactly when its content fits three length bytes. */
  lemma RequestContent(content: Bytes)
    ensures ReadOnly(SEQUENCE, [SEQUENCE] + RequestLength(|content|) + content, false)
         == if |content| < 0x100_0000 then Some(content) else None
  {
    var n := |content|;
    if n < 0x10000 {
      ReadWrapped(SEQUENCE, content, [], false);
      assert Wrapped(SEQUENCE, content) + [] == [SEQUENCE] + RequestLength(n) + content;
    } else {
      var digits: Bytes := [n / 65536 % 256, n / 256 % 256, n % 256];
      ThreeByteLength(n);
      LongRequestContent(content, digits);
      assert RequestLength(n) == [0x83] + digits;
    }
  }

  /** Bytes after an element do not change how it is read. */
  lemma ElementThenMore(x: Bytes, rest: Bytes)
    requires IsElement(x)
    ensures ReadElement(x + rest) == Some((x, rest))
  {
    var s := x[1..];
    assert (x + rest)[1..] == s + rest;
    if s != [] {
      assert (s + rest)[1..] == s[1..] + rest;
      var first: int := s[0];
      var k := first - 128;
      if first > 128 && |s| >= 1 + k {
        assert (s + rest)[1..1 + k] == s[1..1 + k] && (s + rest)[1 + k..] == s[1 + k..] + rest;
      }
    }
  }

  /** The request splits back into its three parts exactly when together they fit three length bytes. */
  lemma RequestReadsBackExactly(cri: Bytes, sigAlg: Bytes, sigValue: Bytes)
    requires IsElement(cri) && IsElement(sigAlg) && IsElement(sigValue)
    ensures ReadRequest(Request(cri, sigAlg, sigValue)) == Some((cri, sigAlg, sigValue))
       <==> |cri| + |sigAlg| + |sigValue| < 0x100_0000
  {
    var content := cri + (sigAlg + sigValue);
    RequestContent(content);
    ElementThenMore(cri, sigAlg + sigValue);
    ElementThenMore(sigAlg, sigValue);
    assert |content| == |cri| + |sigAlg| + |sigValue|;
    ReadThree(content, cri, sigAlg, sigValue);
  }

  /** The certification request info is one element whenever its length fits two bytes. */
  lemma CriIsElement(cn: Bytes, key: Bytes)
    requires CriLen(cn, key) < 65536
    ensures IsElement(Cri(cn, key))
  {
    ReadWrapped(SEQUENCE, CriContent(cn, key), [], false);
    assert Cri(cn, key) + [] == Cri(cn, key);
  }
}
