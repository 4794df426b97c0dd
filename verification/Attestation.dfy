/** Device attestations (`attestation.rs`): the 121-byte wire form, the signed transcript, issuing and verifying. */
module Attestation {
  import opened Bytes
  import opened Signature

  const ATTESTATION_DOMAIN_SEPARATOR: seq<Byte> := Ascii("umbrellax-device-attestation-v1")

  const ATTESTATION_VERSION: Byte := 1
  const NEVER_EXPIRES: U64 := 0xFFFF_FFFF_FFFF_FFFF
  const SERIALIZED_LEN: nat := 121

  /** Everything an attestation says, without its signature. */
  datatype Metadata = Metadata(
    version: Byte,
    account: U32,
    deviceIndex: U32,
    issuedAt: U64,
    expiresAt: U64,
    devicePubkey: Bytes32)

  datatype DeviceAttestation = DeviceAttestation(meta: Metadata, signature: Bytes64)

  datatype IdentityError = UnsupportedAttestationVersion | AttestationExpired | InvalidKey | InvalidSignature

  function MetadataBytes(m: Metadata): (r: seq<Byte>)
    ensures |r| == 57
  {
    [m.version] + (BigEndian(m.account, 4) + (BigEndian(m.deviceIndex, 4) + (BigEndian(m.issuedAt, 8) +
      (BigEndian(m.expiresAt, 8) + m.devicePubkey))))
  }

  function AttestationBytes(a: DeviceAttestation): (r: seq<Byte>)
    ensures |r| == SERIALIZED_LEN
  {
    MetadataBytes(a.meta) + a.signature
  }

  /** The signed transcript. */
  function Transcript(m: Metadata): seq<Byte> {
    ATTESTATION_DOMAIN_SEPARATOR + ([0] + MetadataBytes(m))
  }

  lemma MetadataInjective(m: Metadata, n: Metadata)
    requires MetadataBytes(m) == MetadataBytes(n)
    ensures m == n
  {
    var m4, n4 := BigEndian(m.expiresAt, 8) + m.devicePubkey, BigEndian(n.expiresAt, 8) + n.devicePubkey;
    var m3, n3 := BigEndian(m.issuedAt, 8) + m4, BigEndian(n.issuedAt, 8) + n4;
    var m2, n2 := BigEndian(m.deviceIndex, 4) + m3, BigEndian(n.deviceIndex, 4) + n3;
    var m1, n1 := BigEndian(m.account, 4) + m2, BigEndian(n.account, 4) + n2;
    SplitConcat([m.version], m1, [n.version], n1);
    SplitConcat(BigEndian(m.account, 4), m2, BigEndian(n.account, 4), n2);
    SplitConcat(BigEndian(m.deviceIndex, 4), m3, BigEndian(n.deviceIndex, 4), n3);
    SplitConcat(BigEndian(m.issuedAt, 8), m4, BigEndian(n.issuedAt, 8), n4);
    SplitConcat(BigEndian(m.expiresAt, 8), m.devicePubkey, BigEndian(n.expiresAt, 8), n.devicePubkey);
    Pow256Widths();
    BigEndianInjective(m.account, n.account, 4);
    BigEndianInjective(m.deviceIndex, n.deviceIndex, 4);
    BigEndianInjective(m.issuedAt, n.issuedAt, 8);
    BigEndianInjective(m.expiresAt, n.expiresAt, 8);
  }

  /** The signed transcript determines all metadata. */
  lemma TranscriptInjective(m: Metadata, n: Metadata)
    requires Transcript(m) == Transcript(n)
    ensures m == n
  {
    SplitConcat(ATTESTATION_DOMAIN_SEPARATOR, [0] + MetadataBytes(m),
                ATTESTATION_DOMAIN_SEPARATOR, [0] + MetadataBytes(n));
    SplitConcat([0], MetadataBytes(m), [0], MetadataBytes(n));
    MetadataInjective(m, n);
  }

  /** `to_bytes`: fill a fixed array field by field. */
  method ToBytes(a: DeviceAttestation) returns (out: array<Byte>)
    ensures fresh(out) && out[..] == AttestationBytes(a)
  {
    var m := a.meta;
    out := new Byte[121](_ => 0);
    out[0] := m.version;
    assert out[..1] == [m.version];
    CopyFromSlice(out, 1, BigEndian(m.account, 4));
    CopyFromSlice(out, 5, BigEndian(m.deviceIndex, 4));
    CopyFromSlice(out, 9, BigEndian(m.issuedAt, 8));
    CopyFromSlice(out, 17, BigEndian(m.expiresAt, 8));
    CopyFromSlice(out, 25, m.devicePubkey);
    FieldByField(m);
    assert out[..57] == MetadataBytes(m);
    CopyFromSlice(out, 57, a.signature);
    assert out[..121] == out[..];
  }

  lemma FieldByField(m: Metadata)
    ensures MetadataBytes(m) == [m.version] + BigEndian(m.account, 4) + BigEndian(m.deviceIndex, 4) +
                                BigEndian(m.issuedAt, 8) + BigEndian(m.expiresAt, 8) + m.devicePubkey
  {
  }

  /** `from_bytes`: read the fields at their offsets; only the device key is validated. */
  method FromBytes(ed: Ed25519, bytes: seq<Byte>) returns (r: Result<DeviceAttestation, IdentityError>)
    requires |bytes| == SERIALIZED_LEN
    ensures r.Ok? ==> AttestationBytes(r.value) == bytes && ed.isKey(r.value.meta.devicePubkey)
    ensures forall a: DeviceAttestation | AttestationBytes(a) == bytes && ed.isKey(a.meta.devicePubkey) :: r == Ok(a)
    ensures r.Err? ==> r.error == InvalidKey && !ed.isKey(bytes[25..57])
  {
    Pow256Widths();
    var account := FromBigEndian(bytes[1..5]);
    var deviceIndex := FromBigEndian(bytes[5..9]);
    var issuedAt := FromBigEndian(bytes[9..17]);
    var expiresAt := FromBigEndian(bytes[17..25]);
    var devicePubkey: Bytes32 := bytes[25..57];
    var a := DeviceAttestation(Metadata(bytes[0], account, deviceIndex, issuedAt, expiresAt, devicePubkey),
                               bytes[57..121]);
    Reassembles(bytes, a);
    Unique(a, bytes);
    if !ed.isKey(devicePubkey) {
      return Err(InvalidKey);
    }
    r := Ok(a);
  }

  lemma Reassembles(bytes: seq<Byte>, a: DeviceAttestation)
    requires |bytes| == SERIALIZED_LEN
    requires bytes[0] == a.meta.version && FromBigEndian(bytes[1..5]) == a.meta.account
    requires FromBigEndian(bytes[5..9]) == a.meta.deviceIndex && FromBigEndian(bytes[9..17]) == a.meta.issuedAt
    requires FromBigEndian(bytes[17..25]) == a.meta.expiresAt && bytes[25..57] == a.meta.devicePubkey
    requires bytes[57..121] == a.signature
    ensures AttestationBytes(a) == bytes
  {
    EncodeFromBigEndian(bytes[1..5]);
    EncodeFromBigEndian(bytes[5..9]);
    EncodeFromBigEndian(bytes[9..17]);
    EncodeFromBigEndian(bytes[17..25]);
    assert bytes == ([bytes[0]] + (bytes[1..5] + (bytes[5..9] + (bytes[9..17] + (bytes[17..25] + bytes[25..57]))))) +
      bytes[57..121];
  }

  lemma Unique(a: DeviceAttestation, bytes: seq<Byte>)
    requires AttestationBytes(a) == bytes
    ensures forall c: DeviceAttestation | AttestationBytes(c) == bytes :: c == a
  {
    forall c: DeviceAttestation | AttestationBytes(c) == bytes
      ensures c == a
    {
      SplitConcat(MetadataBytes(a.meta), a.signature, MetadataBytes(c.meta), c.signature);
      MetadataInjective(a.meta, c.meta);
    }
  }

  /** `issue` by an identity that signs with `sign`. */
  function Issue(sign: seq<Byte> -> Bytes64, account: U32, deviceIndex: U32, devicePubkey: Bytes32, issuedAt: U64,
                 expiresAt: U64)
    : (a: DeviceAttestation)
    ensures a.meta.account == account && a.meta.deviceIndex == deviceIndex && a.meta.devicePubkey == devicePubkey
    ensures a.meta.issuedAt == issuedAt && a.meta.expiresAt == expiresAt && a.meta.version == 1
  {
    var m := Metadata(ATTESTATION_VERSION, account, deviceIndex, issuedAt, expiresAt, devicePubkey);
    DeviceAttestation(m, sign(Transcript(m)))
  }

  /** Where the arguments of `issue` stand in the bytes of what it returns. */
  lemma IssuedBytes(sign: seq<Byte> -> Bytes64, account: U32, deviceIndex: U32, devicePubkey: Bytes32, issuedAt: U64,
                    expiresAt: U64)
    ensures var a := Issue(sign, account, deviceIndex, devicePubkey, issuedAt, expiresAt);
            var bytes := AttestationBytes(a);
            && bytes[0] == 1
            && FromBigEndian(bytes[1..5]) == account && FromBigEndian(bytes[5..9]) == deviceIndex
            && FromBigEndian(bytes[9..17]) == issuedAt && FromBigEndian(bytes[17..25]) == expiresAt
            && bytes[25..57] == devicePubkey
            && bytes[57..121] == sign(ATTESTATION_DOMAIN_SEPARATOR + [0] + bytes[..57])
  {
    var a := Issue(sign, account, deviceIndex, devicePubkey, issuedAt, expiresAt);
    var m, bytes := a.meta, AttestationBytes(a);
    assert bytes[..57] == MetadataBytes(m) && bytes[57..121] == a.signature;
    SixPieces([m.version], BigEndian(account, 4), BigEndian(deviceIndex, 4), BigEndian(issuedAt, 8),
              BigEndian(expiresAt, 8), devicePubkey);
    MetadataOpens(bytes, MetadataBytes(m));
    Pow256Widths();
    DecodeBigEndian(account, 4);
    DecodeBigEndian(deviceIndex, 4);
    DecodeBigEndian(issuedAt, 8);
    DecodeBigEndian(expiresAt, 8);
    NextPiece(ATTESTATION_DOMAIN_SEPARATOR, [0], MetadataBytes(m));
  }

  lemma MetadataOpens(bytes: seq<Byte>, meta: seq<Byte>)
    requires |bytes| == 121 && |meta| == 57 && bytes[..57] == meta
    ensures bytes[0] == meta[0] && bytes[1..5] == meta[1..5] && bytes[5..9] == meta[5..9]
    ensures bytes[9..17] == meta[9..17] && bytes[17..25] == meta[17..25] && bytes[25..57] == meta[25..]
  {
  }

  /** `verify` against an identity key at time `now`: the error, if any. */
  function Verify(ed: Ed25519, a: DeviceAttestation, identity: Bytes32, now: U64): Option<IdentityError> {
    if a.meta.version != ATTESTATION_VERSION then Some(UnsupportedAttestationVersion)
    else if a.meta.expiresAt != NEVER_EXPIRES && now > a.meta.expiresAt then Some(AttestationExpired)
    else if !ed.verify(identity, Transcript(a.meta), a.signature) then Some(InvalidSignature)
    else None
  }

  /** Every refusal with its error, in the order of the checks. */
  lemma VerifyErrors(ed: Ed25519, a: DeviceAttestation, identity: Bytes32, now: U64)
    ensures var e, expired := Verify(ed, a, identity, now), a.meta.expiresAt < now;
            && (e == Some(UnsupportedAttestationVersion) <==> a.meta.version != 1)
            && (e == Some(AttestationExpired) <==> a.meta.version == 1 && expired)
            && (e == Some(InvalidSignature) <==>
                a.meta.version == 1 && !expired && !ed.verify(identity, Transcript(a.meta), a.signature))
            && (e == None <==>
                a.meta.version == 1 && !expired && ed.verify(identity, Transcript(a.meta), a.signature))
  {
  }

  /** The message opens with the attestation domain; an identity key signs other kinds of messages too. */
  predicate InDomain(msg: seq<Byte>) {
    ATTESTATION_DOMAIN_SEPARATOR + [0] <= msg
  }

  /** Under the attestation domain, the identity signed nothing but transcripts of the attestations in `issued`. */
  ghost predicate SignsOnly(ed: Ed25519, identity: Bytes32, issued: set<Metadata>) {
    forall msg, sig :: InDomain(msg) && ed.verify(identity, msg, sig) ==>
      exists m :: m in issued && msg == Transcript(m)
  }

  /** And it did sign those: what `sign` makes of them verifies. */
  ghost predicate SignsAll(ed: Ed25519, sign: seq<Byte> -> Bytes64, identity: Bytes32, issued: set<Metadata>) {
    forall m :: m in issued ==> ed.verify(identity, Transcript(m), sign(Transcript(m)))
  }

  /**
    Any wire that parses and verifies at `now` carries exactly the metadata of an attestation the identity issued, and
    that attestation has not expired.
   */
  lemma VerifiedMeansIssued(ed: Ed25519, identity: Bytes32, issued: set<Metadata>, bytes: seq<Byte>,
                            a: DeviceAttestation, now: U64)
    requires SignsOnly(ed, identity, issued)
    requires AttestationBytes(a) == bytes && Verify(ed, a, identity, now).None?
    ensures a.meta in issued && now <= a.meta.expiresAt && a.meta.version == ATTESTATION_VERSION
  {
    assert Transcript(a.meta)[..|ATTESTATION_DOMAIN_SEPARATOR| + 1] == ATTESTATION_DOMAIN_SEPARATOR + [0];
    assert InDomain(Transcript(a.meta));
    var m :| m in issued && Transcript(a.meta) == Transcript(m);
    TranscriptInjective(a.meta, m);
  }

  /** Every issued attestation verifies up to and including its expiry, and not after it. */
  lemma IssuedVerifiesUntilExpiry(ed: Ed25519, sign: seq<Byte> -> Bytes64, identity: Bytes32, account: U32,
                                  deviceIndex: U32, devicePubkey: Bytes32, issuedAt: U64, expiresAt: U64, now: U64)
    requires var a := Issue(sign, account, deviceIndex, devicePubkey, issuedAt, expiresAt);
             ed.verify(identity, Transcript(a.meta), a.signature)
    ensures Verify(ed, Issue(sign, account, deviceIndex, devicePubkey, issuedAt, expiresAt), identity, now).None? <==>
            now <= expiresAt
  {
  }

  /**
    Both halves for one identity: metadata of the current version can be presented so that it verifies at `now`,
    with some signature, if and only if it was issued and has not expired.
   */
  lemma VerifiableIffIssued(ed: Ed25519, sign: seq<Byte> -> Bytes64, identity: Bytes32, issued: set<Metadata>,
                            m: Metadata, now: U64)
    requires SignsOnly(ed, identity, issued) && SignsAll(ed, sign, identity, issued)
    requires m.version == ATTESTATION_VERSION
    ensures (exists sig :: Verify(ed, DeviceAttestation(m, sig), identity, now).None?) <==>
            m in issued && now <= m.expiresAt
  {
    if exists sig :: Verify(ed, DeviceAttestation(m, sig), identity, now).None? {
      var sig :| Verify(ed, DeviceAttestation(m, sig), identity, now).None?;
      var a := DeviceAttestation(m, sig);
      VerifiedMeansIssued(ed, identity, issued, AttestationBytes(a), a, now);
    } else if m in issued {
      var a := Issue(sign, m.account, m.deviceIndex, m.devicePubkey, m.issuedAt, m.expiresAt);
      assert a == DeviceAttestation(m, sign(Transcript(m)));
      IssuedVerifiesUntilExpiry(ed, sign, identity, m.account, m.deviceIndex, m.devicePubkey, m.issuedAt, m.expiresAt,
                                now);
    }
  }

  /** Such an identity exists, whatever it issued. */
  lemma IssuerExists(identity: Bytes32, issued: set<Metadata>) returns (ed: Ed25519, sign: seq<Byte> -> Bytes64)
    ensures SignsOnly(ed, identity, issued) && SignsAll(ed, sign, identity, issued)
  {
    var signed := set m | m in issued :: Transcript(m);
    ed := Ed25519(key => true, (key, msg, sig) => msg in signed);
    sign := msg => seq(64, _ => 0);
  }
}
