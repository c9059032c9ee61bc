/**
 The additional authenticated data of a ciphertext: 42 bytes that name its purpose, key, tenant
 and key version. SHA-256 is a parameter; nothing is asked of it beyond its output length.
 */
module Aad {
  import opened Common

  const MAGIC: Bytes := [0x6D, 0xB5]
  const VERSION: nat := 2
  const LENGTH: nat := 42

  datatype Purpose = UserData | KekWrap | ExportWrap
  {
    function Tag(): nat {
      match this
      case UserData => 1
      case KekWrap => 2
      case ExportWrap => 3
    }
  }

  type Id = s: Bytes | |s| == 16 witness seq(16, _ => 0)
  type U32 = n: nat | n < 0x1_0000_0000

  datatype Fields = Fields(purpose: Purpose, keyId: Id, tenant: Id, version: U32)

  /** A reader of the documented layout: magic, version, purpose, key, tenant digest, key version, and nothing more. */
  function Parse(aad: Bytes): (r: Option<Fields>)
    ensures r.Some? ==> |aad| == LENGTH
  {
    if |aad| != LENGTH || aad[..2] != MAGIC || FromBigEndian(aad[2..4]) != VERSION then None
    else
      var purpose :=
        match FromBigEndian(aad[4..6])
        case 1 => Some(UserData)
        case 2 => Some(KekWrap)
        case 3 => Some(ExportWrap)
        case _ => None;
      var version := FromBigEndian(aad[38..]);
      FourBytes(aad[38..]);
      if purpose == None then None else Some(Fields(purpose.value, aad[6..22], aad[22..38], version))
  }

  lemma FourBytes(s: Bytes)
    requires |s| == 4
    ensures FromBigEndian(s) < 0x1_0000_0000
  {
    FromBigEndianBound(s);
    ByteRanges();
  }

  function Encode(f: Fields): (r: Bytes)
  {
    MAGIC + BigEndian(VERSION, 2) + BigEndian(f.purpose.Tag(), 2) + f.keyId + f.tenant + BigEndian(f.version, 4)
  }

  /** The blob parses back to exactly the fields it was built from. */
  method BuildV2(purpose: Purpose, keyId: Id, tenantHash: Id, version: U32) returns (buf: Bytes)
    ensures |buf| == LENGTH
    ensures Parse(buf) == Some(Fields(purpose, keyId, tenantHash, version))
    ensures buf == Encode(Fields(purpose, keyId, tenantHash, version))
  {
    buf := MAGIC;
    buf := buf + BigEndian(VERSION, 2);
    buf := buf + BigEndian(purpose.Tag(), 2);
    buf := buf + keyId;
    buf := buf + tenantHash;
    buf := buf + BigEndian(version, 4);
    ParseOfEncode(Fields(purpose, keyId, tenantHash, version));
  }

  lemma Cut(a: Bytes, b: Bytes, c: Bytes, d: Bytes, e: Bytes, f: Bytes)
    requires |a| == |b| == |c| == 2 && |d| == |e| == 16 && |f| == 4
    ensures var s := a + b + c + d + e + f;
      && |s| == LENGTH && s[..2] == a && s[2..4] == b && s[4..6] == c && s[6..22] == d && s[22..38] == e && s[38..] == f
  {
  }

  lemma ParseOfEncode(f: Fields)
    ensures |Encode(f)| == LENGTH && Parse(Encode(f)) == Some(f)
  {
    Cut(MAGIC, BigEndian(VERSION, 2), BigEndian(f.purpose.Tag(), 2), f.keyId, f.tenant, BigEndian(f.version, 4));
    ByteRanges();
    ReadOfBigEndian(VERSION, 2);
    ReadOfBigEndian(f.purpose.Tag(), 2);
    ReadOfBigEndian(f.version, 4);
  }

  /** And every blob that parses is the one built from what it parses to: there is one encoding. */
  lemma EncodeOfParse(aad: Bytes)
    requires Parse(aad).Some?
    ensures Encode(Parse(aad).value) == aad
  {
    BigEndianOfRead(aad[2..4]);
    BigEndianOfRead(aad[4..6]);
    BigEndianOfRead(aad[38..]);
    assert aad == aad[..2] + aad[2..4] + aad[4..6] + aad[6..22] + aad[22..38] + aad[38..];
  }

  // ---------------------------------------------------------------- the three constructors

  type Digest = s: Bytes | |s| == 32 witness seq(32, _ => 0)

  function TenantHash(sha256: Bytes -> Digest, tenant: Bytes): Id {
    sha256(tenant)[..16]
  }

  function UserDataAad(sha256: Bytes -> Digest, keyId: Id, tenant: Bytes, version: U32): Bytes {
    Encode(Fields(UserData, keyId, TenantHash(sha256, tenant), version))
  }

  function KekWrapAad(keyId: Id): Bytes {
    Encode(Fields(KekWrap, keyId, seq(16, _ => 0), 0))
  }

  function ExportWrapAad(sha256: Bytes -> Digest, keyId: Id, tenant: Bytes): Bytes {
    Encode(Fields(ExportWrap, keyId, TenantHash(sha256, tenant), 0))
  }

  /** Two blobs are equal exactly when purpose, key, tenant digest and key version are. */
  lemma EqualExactly(f: Fields, g: Fields)
    ensures Encode(f) == Encode(g) <==> f == g
  {
    ParseOfEncode(f);
    ParseOfEncode(g);
  }

  /** Two different tenants whose digests agree on their first sixteen bytes. */
  ghost predicate PrefixCollision(sha256: Bytes -> Digest, s: Bytes, t: Bytes) {
    s != t && sha256(s)[..16] == sha256(t)[..16]
  }

  /** A ciphertext's data is tied to one key, tenant and version, or the two tenants collide. */
  lemma UserDataBinds(sha256: Bytes -> Digest, k: Id, s: Bytes, v: U32, l: Id, t: Bytes, w: U32)
    ensures UserDataAad(sha256, k, s, v) == UserDataAad(sha256, l, t, w)
       <==> k == l && v == w && (s == t || PrefixCollision(sha256, s, t))
  {
    EqualExactly(Fields(UserData, k, TenantHash(sha256, s), v), Fields(UserData, l, TenantHash(sha256, t), w));
  }

  lemma ExportBinds(sha256: Bytes -> Digest, k: Id, s: Bytes, l: Id, t: Bytes)
    ensures ExportWrapAad(sha256, k, s) == ExportWrapAad(sha256, l, t) <==> k == l && (s == t || PrefixCollision(sha256, s, t))
  {
    EqualExactly(Fields(ExportWrap, k, TenantHash(sha256, s), 0), Fields(ExportWrap, l, TenantHash(sha256, t), 0));
  }

  /** What each constructor writes, as its reader sees it. */
  lemma ConstructorsParse(sha256: Bytes -> Digest, k: Id, tenant: Bytes, v: U32)
    ensures Parse(UserDataAad(sha256, k, tenant, v)) == Some(Fields(UserData, k, sha256(tenant)[..16], v))
    ensures Parse(ExportWrapAad(sha256, k, tenant)) == Some(Fields(ExportWrap, k, sha256(tenant)[..16], 0))
    ensures Parse(KekWrapAad(k)) == Some(Fields(KekWrap, k, [0, 0, 0, 0, 0, 0, 0, 0, 0, 0, 0, 0, 0, 0, 0, 0], 0))
  {
    ParseOfEncode(Fields(UserData, k, TenantHash(sha256, tenant), v));
    ParseOfEncode(Fields(ExportWrap, k, TenantHash(sha256, tenant), 0));
    ParseOfEncode(Fields(KekWrap, k, seq(16, _ => 0), 0));
    assert seq(16, _ => 0) == [0, 0, 0, 0, 0, 0, 0, 0, 0, 0, 0, 0, 0, 0, 0, 0];
  }

  /** Key-wrapping data is tied to its key. */
  lemma KekBinds(k: Id, l: Id)
    ensures KekWrapAad(k) == KekWrapAad(l) <==> k == l
  {
    EqualExactly(Fields(KekWrap, k, seq(16, _ => 0), 0), Fields(KekWrap, l, seq(16, _ => 0), 0));
  }

  /** Every blob, byte by byte: 6D B5 00 02, then 00 and the purpose, the key, the tenant digest and the version. */
  lemma Layout(f: Fields)
    ensures var s := Encode(f);
      && |s| == 42 && s[..4] == [0x6D, 0xB5, 0x00, 0x02]
      && s[4] == 0 && s[5] == (match f.purpose case UserData => 1 case KekWrap => 2 case ExportWrap => 3)
      && s[6..22] == f.keyId && s[22..38] == f.tenant
      && s[38] == f.version / 0x100_0000 && s[39] == f.version / 0x1_0000 % 256
      && s[40] == f.version / 0x100 % 256 && s[41] == f.version % 256
  {
    var s := Encode(f);
    var v, t := f.version, f.purpose.Tag();
    Cut(MAGIC, BigEndian(VERSION, 2), BigEndian(t, 2), f.keyId, f.tenant, BigEndian(v, 4));
    TwoBytes(VERSION);
    TwoBytes(t);
    FourBytesOf(v);
    assert s[..4] == s[..2] + s[2..4];
    assert s[4..6][0] == s[4] && s[4..6][1] == s[5];
    assert s[38..][0] == s[38] && s[38..][1] == s[39] && s[38..][2] == s[40] && s[38..][3] == s[41];
  }

  lemma TwoBytes(v: nat)
    ensures BigEndian(v, 2) == [v / 256 % 256, v % 256]
  {
    assert BigEndian(v / 256, 1) == BigEndian(v / 256 / 256, 0) + [v / 256 % 256];
  }

  lemma FourBytesOf(v: U32)
    ensures BigEndian(v, 4) == [v / 0x100_0000, v / 0x1_0000 % 256, v / 0x100 % 256, v % 256]
  {
    var w := v / 256 / 256;
    assert BigEndian(v, 4) == BigEndian(v / 256, 3) + [v % 256];
    assert BigEndian(v / 256, 3) == BigEndian(w, 2) + [v / 256 % 256];
    TwoBytes(w);
    assert w == v / 0x1_0000 && w / 256 == v / 0x100_0000 && v / 0x100_0000 < 256;
  }

  /** Data made for different purposes never coincides, whatever the keys, tenants and versions. */
  lemma PurposesNeverCoincide(sha256: Bytes -> Digest, k: Id, l: Id, m: Id, s: Bytes, t: Bytes, v: U32)
    ensures UserDataAad(sha256, k, s, v) != KekWrapAad(l)
    ensures UserDataAad(sha256, k, s, v) != ExportWrapAad(sha256, m, t)
    ensures KekWrapAad(l) != ExportWrapAad(sha256, m, t)
  {
    ParseOfEncode(Fields(UserData, k, TenantHash(sha256, s), v));
    ParseOfEncode(Fields(KekWrap, l, seq(16, _ => 0), 0));
    ParseOfEncode(Fields(ExportWrap, m, TenantHash(sha256, t), 0));
  }
}
