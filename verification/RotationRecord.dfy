/**
  Identity rotation records (`identity_rotation.rs`) and their 235-byte framing as key-transparency log entries
  (`codec.rs`).
 */
module RotationRecord {
  import opened Bytes
  import opened Signature

  const IDENTITY_ROTATION_DOMAIN_SEPARATOR: seq<Byte> := Ascii("umbrellax-identity-rotation-v1")

  const AUTHORIZATION_WIRE_VERSION: Byte := 1
  const IDENTITY_ROTATION_LEN: nat := 234
  const KT_ENTRY_IDENTITY_ROTATION_PREFIX: Byte := 6
  const KT_ENTRY_IDENTITY_ROTATION_WIRE_LEN: nat := 235

  datatype RotationReason = CatastrophicRecovery | PlannedRotation | IdentityCompromise
  {
    function Tag(): Byte {
      match this
      case CatastrophicRecovery => 1
      case PlannedRotation => 2
      case IdentityCompromise => 3
    }
  }

  /** `RotationReason::from_tag`. */
  function FromTag(tag: Byte): Option<RotationReason> {
    match tag
    case 1 => Some(CatastrophicRecovery)
    case 2 => Some(PlannedRotation)
    case 3 => Some(IdentityCompromise)
    case _ => None
  }

  datatype Record = Record(
    version: Byte,
    oldKey: Bytes32,
    newKey: Bytes32,
    timestamp: U64,
    reason: RotationReason,
    oldSignature: Bytes64,
    newSignature: Bytes64,
    recoveryProof: Bytes32)

  datatype BackupError = InvalidWireFormat | WrappedKeyVersionMismatch | InvalidKeyEncoding | CryptoVerificationFailed

  datatype EntryError = TooShort | WrongPrefix | WrongLength | RecordUnknownWireVersion | RecordInvalidWireFormat

  /** `canonical_signing_input_rotation`, on the byte tag of the reason. */
  function SigningInput(version: Byte, oldKey: Bytes32, newKey: Bytes32, timestamp: U64, tag: Byte, proof: Bytes32)
    : seq<Byte>
  {
    IDENTITY_ROTATION_DOMAIN_SEPARATOR +
    ([version] + (oldKey + (newKey + (BigEndian(timestamp, 8) + ([tag] + proof)))))
  }

  function SigningInputOf(r: Record): seq<Byte> {
    SigningInput(r.version, r.oldKey, r.newKey, r.timestamp, r.reason.Tag(), r.recoveryProof)
  }

  /** Both signatures cover every field but themselves: equal signing inputs come from records equal in all others. */
  lemma SigningInputInjective(a: Record, b: Record)
    requires SigningInputOf(a) == SigningInputOf(b)
    ensures a.(oldSignature := b.oldSignature, newSignature := b.newSignature) == b
  {
    var a5, b5 := [a.reason.Tag()] + a.recoveryProof, [b.reason.Tag()] + b.recoveryProof;
    var a4, b4 := BigEndian(a.timestamp, 8) + a5, BigEndian(b.timestamp, 8) + b5;
    var a3, b3 := a.newKey + a4, b.newKey + b4;
    var a2, b2 := a.oldKey + a3, b.oldKey + b3;
    SplitConcat(IDENTITY_ROTATION_DOMAIN_SEPARATOR, [a.version] + a2,
                IDENTITY_ROTATION_DOMAIN_SEPARATOR, [b.version] + b2);
    SplitConcat([a.version], a2, [b.version], b2);
    SplitConcat(a.oldKey, a3, b.oldKey, b3);
    SplitConcat(a.newKey, a4, b.newKey, b4);
    SplitConcat(BigEndian(a.timestamp, 8), a5, BigEndian(b.timestamp, 8), b5);
    SplitConcat([a.reason.Tag()], a.recoveryProof, [b.reason.Tag()], b.recoveryProof);
    Pow256Widths();
    BigEndianInjective(a.timestamp, b.timestamp, 8);
  }

  /** Where the fields stand in what both keys sign. */
  lemma SigningInputLayout(r: Record)
    ensures var b := SigningInputOf(r);
            && |b| == 136 && b[..30] == IDENTITY_ROTATION_DOMAIN_SEPARATOR && b[30] == r.version
            && b[31..63] == r.oldKey && b[63..95] == r.newKey && b[95..103] == BigEndian(r.timestamp, 8)
            && b[103] == r.reason.Tag() && b[104..136] == r.recoveryProof
  {
    var b, tail := SigningInputOf(r), [r.reason.Tag()] + r.recoveryProof;
    assert b == IDENTITY_ROTATION_DOMAIN_SEPARATOR + [r.version] + r.oldKey + r.newKey + BigEndian(r.timestamp, 8) +
      tail;
    assert b[103..] == tail;
  }

  /** `IdentityRotationRecord::verify`: the error, if any. */
  function Verify(ed: Ed25519, r: Record): Option<BackupError> {
    if !ed.isKey(r.oldKey) then Some(InvalidKeyEncoding)
    else if !ed.verify(r.oldKey, SigningInputOf(r), r.oldSignature) then Some(CryptoVerificationFailed)
    else if !ed.isKey(r.newKey) then Some(InvalidKeyEncoding)
    else if !ed.verify(r.newKey, SigningInputOf(r), r.newSignature) then Some(CryptoVerificationFailed)
    else None
  }

  /** A record verifies exactly when both keys decode and both signed its input; the first failure gives the error. */
  lemma VerifyOutcome(ed: Ed25519, r: Record)
    ensures var first := ed.isKey(r.oldKey) && ed.verify(r.oldKey, SigningInputOf(r), r.oldSignature);
            var second := ed.isKey(r.newKey) && ed.verify(r.newKey, SigningInputOf(r), r.newSignature);
            && (Verify(ed, r).None? <==> first && second)
            && (Verify(ed, r) == Some(InvalidKeyEncoding) <==>
                !ed.isKey(r.oldKey) || (first && !ed.isKey(r.newKey)))
  {
  }

  function RecordBytes(r: Record): (bytes: seq<Byte>)
    ensures |bytes| == IDENTITY_ROTATION_LEN
  {
    [r.version] + r.oldKey + r.newKey + BigEndian(r.timestamp, 8) + [r.reason.Tag()] +
    r.oldSignature + r.newSignature + r.recoveryProof
  }

  /** The log entry of a record. */
  function EntryBytes(r: Record): (bytes: seq<Byte>)
    ensures |bytes| == KT_ENTRY_IDENTITY_ROTATION_WIRE_LEN
  {
    [KT_ENTRY_IDENTITY_ROTATION_PREFIX] + RecordBytes(r)
  }

  /** `encode`: fill a fixed array field by field. */
  method EncodeRecord(r: Record) returns (out: array<Byte>)
    ensures fresh(out) && out[..] == RecordBytes(r)
  {
    out := new Byte[234](_ => 0);
    out[0] := r.version;
    assert out[..1] == [r.version];
    CopyFromSlice(out, 1, r.oldKey);
    assert out[..33] == [r.version] + r.oldKey;
    CopyFromSlice(out, 33, r.newKey);
    assert out[..65] == [r.version] + r.oldKey + r.newKey;
    CopyFromSlice(out, 65, BigEndian(r.timestamp, 8));
    ghost var head := [r.version] + r.oldKey + r.newKey + BigEndian(r.timestamp, 8);
    assert out[..73] == head;
    out[73] := r.reason.Tag();
    assert out[..74] == head + [r.reason.Tag()];
    CopyFromSlice(out, 74, r.oldSignature);
    assert out[..138] == head + [r.reason.Tag()] + r.oldSignature;
    CopyFromSlice(out, 138, r.newSignature);
    assert out[..202] == head + [r.reason.Tag()] + r.oldSignature + r.newSignature;
    CopyFromSlice(out, 202, r.recoveryProof);
  }

  /** `encode_kt_entry_identity_rotation`. */
  method EncodeEntry(r: Record) returns (out: seq<Byte>)
    ensures out == EntryBytes(r)
  {
    var body := EncodeRecord(r);
    out := [KT_ENTRY_IDENTITY_ROTATION_PREFIX];
    out := out + body[..];
  }

  /** `IdentityRotationRecord::from_bytes`. */
  function FromBytes(bytes: seq<Byte>): Result<Record, BackupError> {
    if |bytes| != IDENTITY_ROTATION_LEN then Err(InvalidWireFormat)
    else if bytes[0] != AUTHORIZATION_WIRE_VERSION then Err(WrappedKeyVersionMismatch)
    else if bytes[1..33] == bytes[33..65] then Err(InvalidWireFormat)
    else if FromTag(bytes[73]).None? then Err(InvalidWireFormat)
    else
      Pow256Widths();
      Ok(Record(bytes[0], bytes[1..33], bytes[33..65], FromBigEndian(bytes[65..73]), FromTag(bytes[73]).value,
                bytes[74..138], bytes[138..202], bytes[202..234]))
  }

  /** `decode_kt_entry_identity_rotation`. */
  function DecodeEntry(bytes: seq<Byte>): Result<Record, EntryError> {
    if bytes == [] then Err(TooShort)
    else if bytes[0] != KT_ENTRY_IDENTITY_ROTATION_PREFIX then Err(WrongPrefix)
    else if |bytes| != KT_ENTRY_IDENTITY_ROTATION_WIRE_LEN then Err(WrongLength)
    else
      match FromBytes(bytes[1..])
      case Ok(r) => Ok(r)
      case Err(WrappedKeyVersionMismatch) => Err(RecordUnknownWireVersion)
      case Err(_) => Err(RecordInvalidWireFormat)
  }

  /** Records that the decoder lets through. */
  predicate WellFormed(r: Record) {
    r.version == AUTHORIZATION_WIRE_VERSION && r.oldKey != r.newKey
  }

  lemma RecordFields(r: Record)
    ensures var b := RecordBytes(r);
            && b[0] == r.version && b[1..33] == r.oldKey && b[33..65] == r.newKey
            && b[65..73] == BigEndian(r.timestamp, 8) && b[73] == r.reason.Tag()
            && b[74..138] == r.oldSignature && b[138..202] == r.newSignature && b[202..234] == r.recoveryProof
  {
  }

  /** An entry decodes, to the record it was made from, exactly when that record is well formed. */
  lemma DecodeEncoded(r: Record)
    ensures DecodeEntry(EntryBytes(r)).Ok? <==> WellFormed(r)
    ensures WellFormed(r) ==> DecodeEntry(EntryBytes(r)) == Ok(r)
  {
    RecordFields(r);
    assert EntryBytes(r)[1..] == RecordBytes(r);
    Pow256Widths();
    DecodeBigEndian(r.timestamp, 8);
    assert FromTag(r.reason.Tag()) == Some(r.reason);
  }

  /** Every rejected entry with its error: length zero, first byte, length, version, and then the record's shape. */
  lemma DecodeErrors(bytes: seq<Byte>)
    ensures DecodeEntry(bytes) == Err(TooShort) <==> |bytes| == 0
    ensures DecodeEntry(bytes) == Err(WrongPrefix) <==> |bytes| > 0 && bytes[0] != 6
    ensures DecodeEntry(bytes) == Err(WrongLength) <==> |bytes| > 0 && bytes[0] == 6 && |bytes| != 235
    ensures DecodeEntry(bytes) == Err(RecordUnknownWireVersion) <==> |bytes| == 235 && bytes[0] == 6 && bytes[1] != 1
    ensures DecodeEntry(bytes) == Err(RecordInvalidWireFormat) <==>
            && |bytes| == 235 && bytes[0] == 6 && bytes[1] == 1
            && (bytes[2..34] == bytes[34..66] || !(1 <= bytes[74] <= 3))
  {
    if |bytes| == 235 {
      var body := bytes[1..];
      assert body[0] == bytes[1] && body[73] == bytes[74];
      assert body[1..33] == bytes[2..34] && body[33..65] == bytes[34..66];
    }
  }

  /** Whatever decodes re-encodes to the same bytes. */
  lemma EncodeDecoded(bytes: seq<Byte>)
    requires DecodeEntry(bytes).Ok?
    ensures WellFormed(DecodeEntry(bytes).value) && EntryBytes(DecodeEntry(bytes).value) == bytes
  {
    var body, r := bytes[1..], DecodeEntry(bytes).value;
    EncodeFromBigEndian(body[65..73]);
    assert r.reason.Tag() == body[73];
    assert body == [body[0]] + body[1..33] + body[33..65] + body[65..73] + [body[73]] + body[74..138] +
      body[138..202] + body[202..234];
  }
}
