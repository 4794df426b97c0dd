/**
  The four discovery wire formats of `wire.rs`. A serialisation function gives the bytes of each message; the encoders
  are proved to produce them, and each decoder is proved to be the exact partial inverse: it accepts precisely the
  serialisations of in-range messages and returns that message.
 */
module Wire {
  import opened Bytes

  const WIRE_VERSION: Byte := 1
  const MAX_PSI_BATCH: int := 1024
  const MAX_USERNAME_RECORD_LEN: int := 256
  const MAX_SIBLINGS: int := 64

  /** `PsiQueryEntry` and `PsiResponseEntry`: an anonymous id and a compressed group element. */
  datatype Entry = Entry(anonId: Bytes32, element: Bytes32)

  datatype PsiRequest = PsiRequest(version: Byte, entries: seq<Entry>, clientNonce: Bytes32, witnessIndex: Byte)

  datatype PsiResponse = PsiResponse(version: Byte, entries: seq<Entry>, serverNonce: Bytes32, transcriptTag: Bytes32)

  datatype UsernameRequest =
    UsernameRequest(version: Byte, witnessIndex: Byte, anonId: Bytes32, blinded: Bytes32, clientNonce: Bytes32)

  datatype KtInclusionProof =
    KtInclusionProof(epochRoot: Bytes32, treeSize: U64, leafIndex: U64, leafPayload: seq<Byte>, siblings: seq<Bytes32>)

  datatype UsernameResponse = UsernameResponse(
    version: Byte,
    anonId: Bytes32,
    evaluation: Bytes32,
    encryptedRecord: seq<Byte>,
    ktProof: KtInclusionProof,
    serverNonce: Bytes32,
    transcriptTag: Bytes32)

  datatype WireError =
    | TooShort
    | VersionMismatch
    | BatchSizeOutOfRange
    | LengthMismatch
    | Empty
    | Truncated
    | RecordTooLarge
    | TooManySiblings
    | TrailingBytes

  // ----- Serialisations -----

  function EntryBytes(entries: seq<Entry>): (r: seq<Byte>)
    ensures |r| == 64 * |entries|
  {
    if entries == [] then []
    else
      var last := entries[|entries| - 1];
      EntryBytes(entries[..|entries| - 1]) + (last.anonId + last.element)
  }

  function HashBytes(hashes: seq<Bytes32>): (r: seq<Byte>)
    ensures |r| == 32 * |hashes|
  {
    if hashes == [] then [] else HashBytes(hashes[..|hashes| - 1]) + hashes[|hashes| - 1]
  }

  /** A byte string behind its two-byte length. */
  function Prefixed(s: seq<Byte>): seq<Byte> {
    BigEndian(|s|, 2) + s
  }

  function PsiRequestBytes(m: PsiRequest): seq<Byte> {
    [m.version, m.witnessIndex] + (BigEndian(|m.entries|, 2) + (EntryBytes(m.entries) + m.clientNonce))
  }

  function PsiResponseBytes(m: PsiResponse): seq<Byte> {
    [m.version] + (BigEndian(|m.entries|, 2) + (EntryBytes(m.entries) + (m.serverNonce + m.transcriptTag)))
  }

  function UsernameRequestBytes(m: UsernameRequest): seq<Byte> {
    [m.version, m.witnessIndex] + (m.anonId + (m.blinded + m.clientNonce))
  }

  function ProofBytes(p: KtInclusionProof): seq<Byte> {
    p.epochRoot + (BigEndian(p.treeSize, 8) + (BigEndian(p.leafIndex, 8) + (Prefixed(p.leafPayload) +
      (BigEndian(|p.siblings|, 2) + HashBytes(p.siblings)))))
  }

  function UsernameResponseBytes(m: UsernameResponse): seq<Byte> {
    [m.version] + (m.anonId + (m.evaluation + (Prefixed(m.encryptedRecord) +
      (ProofBytes(m.ktProof) + (m.serverNonce + m.transcriptTag)))))
  }

  // ----- Where the fields stand -----

  /** Entry `i` takes bytes `64 * i` to `64 * i + 64`: its id, then its element. */
  lemma {:induction false} EntryAt(entries: seq<Entry>, i: nat)
    requires i < |entries|
    ensures var b := EntryBytes(entries);
            b[64 * i..64 * i + 32] == entries[i].anonId && b[64 * i + 32..64 * i + 64] == entries[i].element
  {
    var n, b := |entries| - 1, EntryBytes(entries);
    var front := EntryBytes(entries[..n]);
    assert |front| == 64 * n && b == front + (entries[n].anonId + entries[n].element);
    if i < n {
      EntryAt(entries[..n], i);
      assert b[64 * i..64 * i + 32] == front[64 * i..64 * i + 32];
      assert b[64 * i + 32..64 * i + 64] == front[64 * i + 32..64 * i + 64];
    }
  }

  /** Hash `i` takes bytes `32 * i` to `32 * i + 32`. */
  lemma {:induction false} HashAt(hashes: seq<Bytes32>, i: nat)
    requires i < |hashes|
    ensures HashBytes(hashes)[32 * i..32 * i + 32] == hashes[i]
  {
    var n := |hashes| - 1;
    var front := HashBytes(hashes[..n]);
    assert |front| == 32 * n && HashBytes(hashes) == front + hashes[n];
    if i < n {
      HashAt(hashes[..n], i);
      assert HashBytes(hashes)[32 * i..32 * i + 32] == front[32 * i..32 * i + 32];
    }
  }

  /** `PsiRequest`: version, witness, count, entries, nonce. */
  lemma PsiRequestLayout(m: PsiRequest, i: nat)
    requires i < |m.entries|
    ensures var b, end := PsiRequestBytes(m), 4 + 64 * |m.entries|;
            && |b| == end + 32 && b[0] == m.version && b[1] == m.witnessIndex && b[2..4] == BigEndian(|m.entries|, 2)
            && b[4 + 64 * i..36 + 64 * i] == m.entries[i].anonId && b[36 + 64 * i..68 + 64 * i] == m.entries[i].element
            && b[end..end + 32] == m.clientNonce
  {
    var b, body, end := PsiRequestBytes(m), EntryBytes(m.entries), 4 + 64 * |m.entries|;
    EntryAt(m.entries, i);
    assert b[4..end] == body;
    assert b[4 + 64 * i..36 + 64 * i] == body[64 * i..64 * i + 32];
    assert b[36 + 64 * i..68 + 64 * i] == body[64 * i + 32..64 * i + 64];
  }

  /** `PsiResponse`: version, count, entries, nonce, tag. */
  lemma PsiResponseLayout(m: PsiResponse, i: nat)
    requires i < |m.entries|
    ensures var b, end := PsiResponseBytes(m), 3 + 64 * |m.entries|;
            && |b| == end + 64 && b[0] == m.version && b[1..3] == BigEndian(|m.entries|, 2)
            && b[3 + 64 * i..35 + 64 * i] == m.entries[i].anonId && b[35 + 64 * i..67 + 64 * i] == m.entries[i].element
            && b[end..end + 32] == m.serverNonce && b[end + 32..end + 64] == m.transcriptTag
  {
    var b, body, end := PsiResponseBytes(m), EntryBytes(m.entries), 3 + 64 * |m.entries|;
    EntryAt(m.entries, i);
    assert b[3..end] == body;
    assert b[3 + 64 * i..35 + 64 * i] == body[64 * i..64 * i + 32];
    assert b[35 + 64 * i..67 + 64 * i] == body[64 * i + 32..64 * i + 64];
  }

  /** `UsernameRequest`: version, witness, id, blinded element, nonce. */
  lemma UsernameRequestLayout(m: UsernameRequest)
    ensures var b := UsernameRequestBytes(m);
            && |b| == 98 && b[0] == m.version && b[1] == m.witnessIndex
            && b[2..34] == m.anonId && b[34..66] == m.blinded && b[66..98] == m.clientNonce
  {
  }

  /** An inclusion proof: root, tree size, leaf index, payload behind its length, hashes behind their count. */
  lemma ProofLayout(p: KtInclusionProof)
    ensures var b, at := ProofBytes(p), 50 + |p.leafPayload|;
            && |b| == at + 2 + 32 * |p.siblings|
            && b[..32] == p.epochRoot && b[32..40] == BigEndian(p.treeSize, 8) && b[40..48] == BigEndian(p.leafIndex, 8)
            && b[48..50] == BigEndian(|p.leafPayload|, 2) && b[50..at] == p.leafPayload
            && b[at..at + 2] == BigEndian(|p.siblings|, 2) && b[at + 2..] == HashBytes(p.siblings)
  {
    var tail := BigEndian(|p.siblings|, 2) + HashBytes(p.siblings);
    var payload := Prefixed(p.leafPayload) + tail;
    var head := p.epochRoot + BigEndian(p.treeSize, 8) + BigEndian(p.leafIndex, 8);
    assert ProofBytes(p) == head + payload;
    assert ProofBytes(p)[48..] == payload;
    assert payload == BigEndian(|p.leafPayload|, 2) + p.leafPayload + tail;
  }

  /** `UsernameResponse`: version, id, evaluation, record behind its length, proof, nonce, tag. */
  lemma UsernameResponseLayout(m: UsernameResponse)
    ensures var b, at := UsernameResponseBytes(m), 67 + |m.encryptedRecord|;
            var end := at + |ProofBytes(m.ktProof)|;
            && |b| == end + 64 && b[0] == m.version && b[1..33] == m.anonId && b[33..65] == m.evaluation
            && b[65..67] == BigEndian(|m.encryptedRecord|, 2) && b[67..at] == m.encryptedRecord
            && b[at..end] == ProofBytes(m.ktProof) && b[end..end + 32] == m.serverNonce
            && b[end + 32..end + 64] == m.transcriptTag
  {
    var proof, tail := ProofBytes(m.ktProof), m.serverNonce + m.transcriptTag;
    var head := [m.version] + m.anonId + m.evaluation;
    var body := BigEndian(|m.encryptedRecord|, 2) + m.encryptedRecord;
    var b := UsernameResponseBytes(m);
    assert b == head + (body + (proof + tail));
    assert b[65..] == body + (proof + tail);
    assert b[67 + |m.encryptedRecord|..] == proof + tail;
  }

  // ----- The messages that survive the wire -----

  predicate PsiRequestInRange(m: PsiRequest) {
    m.version == 1 && 1 <= |m.entries| <= 1024
  }

  predicate PsiResponseInRange(m: PsiResponse) {
    m.version == 1 && 1 <= |m.entries| <= 1024
  }

  predicate UsernameRequestInRange(m: UsernameRequest) {
    m.version == 1
  }

  predicate ProofInRange(p: KtInclusionProof) {
    |p.leafPayload| <= 65535 && |p.siblings| <= 64
  }

  predicate UsernameResponseInRange(m: UsernameResponse) {
    m.version == 1 && |m.encryptedRecord| <= 256 && ProofInRange(m.ktProof)
  }

  // ----- No serialisation is a prefix of another -----

  lemma PrefixSplit(a: seq<Byte>, b: seq<Byte>, c: seq<Byte>, d: seq<Byte>)
    requires a + b <= c + d && |a| == |c|
    ensures a == c && b <= d
  {
    assert a == (a + b)[..|a|] && c == (c + d)[..|a|] == (a + b)[..|a|];
    assert b == (a + b)[|a|..];
    assert (c + d)[..|a + b|][|a|..] == d[..|b|];
  }

  lemma PrefixSplitInteger(x: int, n: nat, b: seq<Byte>, y: int, d: seq<Byte>)
    requires 0 <= x < Pow256(n) && 0 <= y < Pow256(n)
    requires BigEndian(x, n) + b <= BigEndian(y, n) + d
    ensures x == y && b <= d
  {
    PrefixSplit(BigEndian(x, n), b, BigEndian(y, n), d);
    BigEndianInjective(x, y, n);
  }

  lemma PrefixSplitPrefixed(s: seq<Byte>, b: seq<Byte>, t: seq<Byte>, d: seq<Byte>)
    requires |s| < 0x1_0000 && |t| < 0x1_0000
    requires Prefixed(s) + b <= Prefixed(t) + d
    ensures s == t && b <= d
  {
    Pow256Widths();
    assert Prefixed(s) + b == BigEndian(|s|, 2) + (s + b);
    assert Prefixed(t) + d == BigEndian(|t|, 2) + (t + d);
    PrefixSplitInteger(|s|, 2, s + b, |t|, t + d);
    PrefixSplit(s, b, t, d);
  }

  lemma {:induction false} EntryBytesInjective(a: seq<Entry>, b: seq<Entry>)
    requires |a| == |b| && EntryBytes(a) == EntryBytes(b)
    ensures a == b
  {
    if a != [] {
      var x, y := a[|a| - 1], b[|b| - 1];
      SplitConcat(EntryBytes(a[..|a| - 1]), x.anonId + x.element, EntryBytes(b[..|b| - 1]), y.anonId + y.element);
      SplitConcat(x.anonId, x.element, y.anonId, y.element);
      EntryBytesInjective(a[..|a| - 1], b[..|b| - 1]);
      assert a == a[..|a| - 1] + [x] && b == b[..|b| - 1] + [y];
    }
  }

  lemma {:induction false} HashBytesInjective(a: seq<Bytes32>, b: seq<Bytes32>)
    requires |a| == |b| && HashBytes(a) == HashBytes(b)
    ensures a == b
  {
    if a != [] {
      SplitConcat(HashBytes(a[..|a| - 1]), a[|a| - 1], HashBytes(b[..|b| - 1]), b[|b| - 1]);
      HashBytesInjective(a[..|a| - 1], b[..|b| - 1]);
      assert a == a[..|a| - 1] + [a[|a| - 1]] && b == b[..|b| - 1] + [b[|b| - 1]];
    }
  }

  lemma PsiRequestPrefixFree(m: PsiRequest, n: PsiRequest)
    requires PsiRequestInRange(m) && PsiRequestInRange(n)
    requires PsiRequestBytes(m) <= PsiRequestBytes(n)
    ensures m == n
  {
    Pow256Widths();
    PrefixSplit([m.version, m.witnessIndex], BigEndian(|m.entries|, 2) + (EntryBytes(m.entries) + m.clientNonce),
                [n.version, n.witnessIndex], BigEndian(|n.entries|, 2) + (EntryBytes(n.entries) + n.clientNonce));
    assert m.version == [m.version, m.witnessIndex][0] && m.witnessIndex == [m.version, m.witnessIndex][1];
    assert n.version == [n.version, n.witnessIndex][0] && n.witnessIndex == [n.version, n.witnessIndex][1];
    PrefixSplitInteger(|m.entries|, 2, EntryBytes(m.entries) + m.clientNonce,
                       |n.entries|, EntryBytes(n.entries) + n.clientNonce);
    PrefixSplit(EntryBytes(m.entries), m.clientNonce, EntryBytes(n.entries), n.clientNonce);
    EntryBytesInjective(m.entries, n.entries);
  }

  lemma PsiResponsePrefixFree(m: PsiResponse, n: PsiResponse)
    requires PsiResponseInRange(m) && PsiResponseInRange(n)
    requires PsiResponseBytes(m) <= PsiResponseBytes(n)
    ensures m == n
  {
    Pow256Widths();
    var s, t := m.serverNonce + m.transcriptTag, n.serverNonce + n.transcriptTag;
    PrefixSplit([m.version], BigEndian(|m.entries|, 2) + (EntryBytes(m.entries) + s),
                [n.version], BigEndian(|n.entries|, 2) + (EntryBytes(n.entries) + t));
    PrefixSplitInteger(|m.entries|, 2, EntryBytes(m.entries) + s, |n.entries|, EntryBytes(n.entries) + t);
    PrefixSplit(EntryBytes(m.entries), s, EntryBytes(n.entries), t);
    EntryBytesInjective(m.entries, n.entries);
    PrefixSplit(m.serverNonce, m.transcriptTag, n.serverNonce, n.transcriptTag);
  }

  lemma UsernameRequestPrefixFree(m: UsernameRequest, n: UsernameRequest)
    requires UsernameRequestBytes(m) <= UsernameRequestBytes(n)
    ensures m == n
  {
    PrefixSplit([m.version, m.witnessIndex], m.anonId + (m.blinded + m.clientNonce),
                [n.version, n.witnessIndex], n.anonId + (n.blinded + n.clientNonce));
    assert m.version == [m.version, m.witnessIndex][0] && m.witnessIndex == [m.version, m.witnessIndex][1];
    assert n.version == [n.version, n.witnessIndex][0] && n.witnessIndex == [n.version, n.witnessIndex][1];
    PrefixSplit(m.anonId, m.blinded + m.clientNonce, n.anonId, n.blinded + n.clientNonce);
    PrefixSplit(m.blinded, m.clientNonce, n.blinded, n.clientNonce);
  }

  /** An inclusion proof delimits itself inside a longer message. */
  lemma ProofSelfDelimiting(p: KtInclusionProof, b: seq<Byte>, r: KtInclusionProof, d: seq<Byte>)
    requires ProofInRange(p) && ProofInRange(r)
    requires ProofBytes(p) + b <= ProofBytes(r) + d
    ensures p == r && b <= d
  {
    Pow256Widths();
    var p4, r4 := BigEndian(|p.siblings|, 2) + (HashBytes(p.siblings) + b),
                  BigEndian(|r.siblings|, 2) + (HashBytes(r.siblings) + d);
    var p3, r3 := Prefixed(p.leafPayload) + p4, Prefixed(r.leafPayload) + r4;
    var p2, r2 := BigEndian(p.leafIndex, 8) + p3, BigEndian(r.leafIndex, 8) + r3;
    var p1, r1 := BigEndian(p.treeSize, 8) + p2, BigEndian(r.treeSize, 8) + r2;
    assert ProofBytes(p) + b == p.epochRoot + p1;
    assert ProofBytes(r) + d == r.epochRoot + r1;
    PrefixSplit(p.epochRoot, p1, r.epochRoot, r1);
    PrefixSplitInteger(p.treeSize, 8, p2, r.treeSize, r2);
    PrefixSplitInteger(p.leafIndex, 8, p3, r.leafIndex, r3);
    PrefixSplitPrefixed(p.leafPayload, p4, r.leafPayload, r4);
    PrefixSplitInteger(|p.siblings|, 2, HashBytes(p.siblings) + b, |r.siblings|, HashBytes(r.siblings) + d);
    PrefixSplit(HashBytes(p.siblings), b, HashBytes(r.siblings), d);
    HashBytesInjective(p.siblings, r.siblings);
  }

  lemma UsernameResponsePrefixFree(m: UsernameResponse, n: UsernameResponse)
    requires UsernameResponseInRange(m) && UsernameResponseInRange(n)
    requires UsernameResponseBytes(m) <= UsernameResponseBytes(n)
    ensures m == n
  {
    var m4, n4 := m.serverNonce + m.transcriptTag, n.serverNonce + n.transcriptTag;
    var m3, n3 := ProofBytes(m.ktProof) + m4, ProofBytes(n.ktProof) + n4;
    var m2, n2 := Prefixed(m.encryptedRecord) + m3, Prefixed(n.encryptedRecord) + n3;
    PrefixSplit([m.version], m.anonId + (m.evaluation + m2), [n.version], n.anonId + (n.evaluation + n2));
    PrefixSplit(m.anonId, m.evaluation + m2, n.anonId, n.evaluation + n2);
    PrefixSplit(m.evaluation, m2, n.evaluation, n2);
    PrefixSplitPrefixed(m.encryptedRecord, m3, n.encryptedRecord, n3);
    ProofSelfDelimiting(m.ktProof, m4, n.ktProof, n4);
    PrefixSplit(m.serverNonce, m.transcriptTag, n.serverNonce, n.transcriptTag);
  }

  // ----- Encoders -----

  /** The entry loop of both PSI encoders. */
  method AppendEntries(head: seq<Byte>, entries: seq<Entry>) returns (out: seq<Byte>)
    ensures out == head + EntryBytes(entries)
  {
    out := head;
    for k := 0 to |entries|
      invariant out == head + EntryBytes(entries[..k])
    {
      assert entries[..k + 1][..k] == entries[..k];
      out := out + entries[k].anonId;
      out := out + entries[k].element;
    }
    assert entries[..|entries|] == entries;
  }

  method EncodePsiRequest(m: PsiRequest) returns (out: seq<Byte>)
    ensures out == PsiRequestBytes(m)
  {
    out := [m.version];
    out := out + [m.witnessIndex];
    out := out + BigEndian(|m.entries|, 2);
    out := AppendEntries(out, m.entries);
    out := out + m.clientNonce;
  }

  method EncodePsiResponse(m: PsiResponse) returns (out: seq<Byte>)
    ensures out == PsiResponseBytes(m)
  {
    out := [m.version];
    out := out + BigEndian(|m.entries|, 2);
    out := AppendEntries(out, m.entries);
    out := out + m.serverNonce;
    out := out + m.transcriptTag;
  }

  method EncodeUsernameRequest(m: UsernameRequest) returns (out: seq<Byte>)
    ensures out == UsernameRequestBytes(m)
  {
    out := [m.version];
    out := out + [m.witnessIndex];
    out := out + m.anonId;
    out := out + m.blinded;
    out := out + m.clientNonce;
  }

  /** The sibling loop of the response encoder. */
  method AppendHashes(head: seq<Byte>, hashes: seq<Bytes32>) returns (out: seq<Byte>)
    ensures out == head + HashBytes(hashes)
  {
    out := head;
    for k := 0 to |hashes|
      invariant out == head + HashBytes(hashes[..k])
    {
      assert hashes[..k + 1][..k] == hashes[..k];
      out := out + hashes[k];
    }
    assert hashes[..|hashes|] == hashes;
  }

  method EncodeUsernameResponse(m: UsernameResponse) returns (out: seq<Byte>)
    ensures out == UsernameResponseBytes(m)
  {
    var p := m.ktProof;
    out := [m.version];
    out := out + m.anonId;
    out := out + m.evaluation;
    out := out + BigEndian(|m.encryptedRecord|, 2);
    out := out + m.encryptedRecord;
    ghost var head := out;
    out := out + p.epochRoot;
    out := out + BigEndian(p.treeSize, 8);
    out := out + BigEndian(p.leafIndex, 8);
    out := out + BigEndian(|p.leafPayload|, 2);
    out := out + p.leafPayload;
    out := out + BigEndian(|p.siblings|, 2);
    out := AppendHashes(out, p.siblings);
    assert out == head + ProofBytes(p);
    out := out + m.serverNonce;
    out := out + m.transcriptTag;
  }

  // ----- Decoders -----

  /** Neighbouring slices join. */
  lemma Join(bytes: seq<Byte>, a: nat, b: nat, c: nat)
    requires a <= b <= c <= |bytes|
    ensures bytes[a..c] == bytes[a..b] + bytes[b..c]
  {
  }

  lemma JoinFour(bytes: seq<Byte>, a: nat, b: nat, c: nat)
    requires a <= b <= c <= |bytes|
    ensures bytes == bytes[..a] + (bytes[a..b] + (bytes[b..c] + bytes[c..]))
  {
    Join(bytes, b, c, |bytes|);
    Join(bytes, a, b, |bytes|);
  }

  /** The entry loop of both PSI decoders: `n` entries from position `start`. */
  method ReadEntries(bytes: seq<Byte>, start: nat, n: nat) returns (entries: seq<Entry>)
    requires start + 64 * n <= |bytes|
    ensures |entries| == n && EntryBytes(entries) == bytes[start..start + 64 * n]
  {
    entries := [];
    var pos := start;
    for k := 0 to n
      invariant pos == start + 64 * k && |entries| == k
      invariant EntryBytes(entries) == bytes[start..pos]
    {
      var anonId: Bytes32 := bytes[pos..pos + 32];
      var element: Bytes32 := bytes[pos + 32..pos + 64];
      var next := entries + [Entry(anonId, element)];
      assert next[..k] == entries;
      assert bytes[start..pos + 64] == bytes[start..pos] + (anonId + element);
      entries := next;
      pos := pos + 64;
    }
  }

  /** Where the fields of a PSI message lie whose entries follow `at` header bytes. */
  lemma PsiLayout(head: seq<Byte>, entries: seq<Entry>, tail: seq<Byte>)
    requires |entries| < 0x1_0000
    ensures var b := head + (BigEndian(|entries|, 2) + (EntryBytes(entries) + tail));
            && |b| == |head| + 2 + 64 * |entries| + |tail|
            && FromBigEndian(b[|head|..|head| + 2]) == |entries|
  {
    var b := head + (BigEndian(|entries|, 2) + (EntryBytes(entries) + tail));
    assert b[|head|..|head| + 2] == BigEndian(|entries|, 2);
    Pow256Widths();
    DecodeBigEndian(|entries|, 2);
  }

  /** The checks of `PsiRequest::decode` before it reads the entries. */
  predicate PsiRequestShape(bytes: seq<Byte>) {
    && |bytes| >= 36
    && bytes[0] == WIRE_VERSION
    && var n := FromBigEndian(bytes[2..4]);
       1 <= n <= MAX_PSI_BATCH && |bytes| == 36 + 64 * n
  }

  lemma PsiRequestsHaveShape(bytes: seq<Byte>)
    ensures forall m | PsiRequestInRange(m) && PsiRequestBytes(m) == bytes :: PsiRequestShape(bytes)
  {
    forall m | PsiRequestInRange(m) && PsiRequestBytes(m) == bytes
      ensures PsiRequestShape(bytes)
    {
      PsiLayout([m.version, m.witnessIndex], m.entries, m.clientNonce);
    }
  }

  lemma PsiRequestAssembles(bytes: seq<Byte>, m: PsiRequest)
    requires var n := |m.entries|;
             && |bytes| == 36 + 64 * n
             && bytes[..2] == [m.version, m.witnessIndex]
             && FromBigEndian(bytes[2..4]) == n
             && bytes[4..4 + 64 * n] == EntryBytes(m.entries)
             && bytes[4 + 64 * n..] == m.clientNonce
    ensures PsiRequestBytes(m) == bytes
  {
    EncodeFromBigEndian(bytes[2..4]);
    JoinFour(bytes, 2, 4, 4 + 64 * |m.entries|);
  }

  lemma PsiRequestUnique(m: PsiRequest, bytes: seq<Byte>)
    requires PsiRequestInRange(m) && PsiRequestBytes(m) == bytes
    ensures forall n | PsiRequestInRange(n) && PsiRequestBytes(n) == bytes :: n == m
  {
    forall n | PsiRequestInRange(n) && PsiRequestBytes(n) == bytes
      ensures n == m
    {
      PsiRequestPrefixFree(m, n);
    }
  }

  /** `PsiRequest::decode`: accepts exactly the serialisations of in-range requests, each as its request. */
  method DecodePsiRequest(bytes: seq<Byte>) returns (r: Result<PsiRequest, WireError>)
    ensures r.Ok? ==> PsiRequestInRange(r.value) && PsiRequestBytes(r.value) == bytes
    ensures forall m | PsiRequestInRange(m) && PsiRequestBytes(m) == bytes :: r == Ok(m)
    ensures r == Err(TooShort) <==> |bytes| < 36
    ensures r == Err(VersionMismatch) <==> |bytes| >= 36 && bytes[0] != WIRE_VERSION
  {
    if |bytes| < 1 + 1 + 2 + 32 {
      PsiRequestsHaveShape(bytes);
      return Err(TooShort);
    }
    var version := bytes[0];
    if version != WIRE_VERSION {
      PsiRequestsHaveShape(bytes);
      return Err(VersionMismatch);
    }
    var witnessIndex := bytes[1];
    var n := FromBigEndian(bytes[2..4]);
    if n == 0 || n > MAX_PSI_BATCH {
      PsiRequestsHaveShape(bytes);
      return Err(BatchSizeOutOfRange);
    }
    if |bytes| != 4 + n * 64 + 32 {
      PsiRequestsHaveShape(bytes);
      return Err(LengthMismatch);
    }
    var entries := ReadEntries(bytes, 4, n);
    var pos := 4 + 64 * n;
    var clientNonce: Bytes32 := bytes[pos..pos + 32];
    r := Ok(PsiRequest(version, entries, clientNonce, witnessIndex));
    PsiRequestAssembles(bytes, r.value);
    PsiRequestUnique(r.value, bytes);
  }

  /** The checks of `PsiResponse::decode` before it reads the entries. */
  predicate PsiResponseShape(bytes: seq<Byte>) {
    && |bytes| >= 67
    && bytes[0] == WIRE_VERSION
    && var n := FromBigEndian(bytes[1..3]);
       1 <= n <= MAX_PSI_BATCH && |bytes| == 67 + 64 * n
  }

  lemma PsiResponsesHaveShape(bytes: seq<Byte>)
    ensures forall m | PsiResponseInRange(m) && PsiResponseBytes(m) == bytes :: PsiResponseShape(bytes)
  {
    forall m | PsiResponseInRange(m) && PsiResponseBytes(m) == bytes
      ensures PsiResponseShape(bytes)
    {
      PsiLayout([m.version], m.entries, m.serverNonce + m.transcriptTag);
    }
  }

  lemma PsiResponseAssembles(bytes: seq<Byte>, m: PsiResponse)
    requires var n := |m.entries|;
             && |bytes| == 67 + 64 * n
             && bytes[..1] == [m.version]
             && FromBigEndian(bytes[1..3]) == n
             && bytes[3..3 + 64 * n] == EntryBytes(m.entries)
             && bytes[3 + 64 * n..35 + 64 * n] == m.serverNonce
             && bytes[35 + 64 * n..] == m.transcriptTag
    ensures PsiResponseBytes(m) == bytes
  {
    var pos := 3 + 64 * |m.entries|;
    EncodeFromBigEndian(bytes[1..3]);
    JoinFour(bytes, 1, 3, pos);
    Join(bytes, pos, pos + 32, |bytes|);
    assert bytes[pos..] == bytes[pos..|bytes|];
  }

  lemma PsiResponseUnique(m: PsiResponse, bytes: seq<Byte>)
    requires PsiResponseInRange(m) && PsiResponseBytes(m) == bytes
    ensures forall n | PsiResponseInRange(n) && PsiResponseBytes(n) == bytes :: n == m
  {
    forall n | PsiResponseInRange(n) && PsiResponseBytes(n) == bytes
      ensures n == m
    {
      PsiResponsePrefixFree(m, n);
    }
  }

  method DecodePsiResponse(bytes: seq<Byte>) returns (r: Result<PsiResponse, WireError>)
    ensures r.Ok? ==> PsiResponseInRange(r.value) && PsiResponseBytes(r.value) == bytes
    ensures forall m | PsiResponseInRange(m) && PsiResponseBytes(m) == bytes :: r == Ok(m)
    ensures r == Err(TooShort) <==> |bytes| < 67
    ensures r == Err(VersionMismatch) <==> |bytes| >= 67 && bytes[0] != WIRE_VERSION
  {
    if |bytes| < 1 + 2 + 32 + 32 {
      PsiResponsesHaveShape(bytes);
      return Err(TooShort);
    }
    var version := bytes[0];
    if version != WIRE_VERSION {
      PsiResponsesHaveShape(bytes);
      return Err(VersionMismatch);
    }
    var n := FromBigEndian(bytes[1..3]);
    if n == 0 || n > MAX_PSI_BATCH {
      PsiResponsesHaveShape(bytes);
      return Err(BatchSizeOutOfRange);
    }
    if |bytes| != 3 + n * 64 + 32 + 32 {
      PsiResponsesHaveShape(bytes);
      return Err(LengthMismatch);
    }
    var entries := ReadEntries(bytes, 3, n);
    var pos := 3 + 64 * n;
    var serverNonce: Bytes32 := bytes[pos..pos + 32];
    pos := pos + 32;
    var transcriptTag: Bytes32 := bytes[pos..pos + 32];
    r := Ok(PsiResponse(version, entries, serverNonce, transcriptTag));
    PsiResponseAssembles(bytes, r.value);
    PsiResponseUnique(r.value, bytes);
  }

  lemma UsernameRequestUnique(m: UsernameRequest, bytes: seq<Byte>)
    requires UsernameRequestInRange(m) && UsernameRequestBytes(m) == bytes
    ensures forall n | UsernameRequestInRange(n) && UsernameRequestBytes(n) == bytes :: n == m
  {
    forall n | UsernameRequestInRange(n) && UsernameRequestBytes(n) == bytes
      ensures n == m
    {
      UsernameRequestPrefixFree(m, n);
    }
  }

  method DecodeUsernameRequest(bytes: seq<Byte>) returns (r: Result<UsernameRequest, WireError>)
    ensures r.Ok? ==> UsernameRequestInRange(r.value) && UsernameRequestBytes(r.value) == bytes
    ensures forall m | UsernameRequestInRange(m) && UsernameRequestBytes(m) == bytes :: r == Ok(m)
    ensures r == Err(LengthMismatch) <==> |bytes| != 98
    ensures r == Err(VersionMismatch) <==> |bytes| == 98 && bytes[0] != WIRE_VERSION
  {
    if |bytes| != 1 + 1 + 32 + 32 + 32 {
      return Err(LengthMismatch);
    }
    if bytes[0] != WIRE_VERSION {
      return Err(VersionMismatch);
    }
    r := Ok(UsernameRequest(WIRE_VERSION, bytes[1], bytes[2..34], bytes[34..66], bytes[66..98]));
    assert bytes == bytes[..2] + (bytes[2..34] + (bytes[34..66] + bytes[66..98]));
    UsernameRequestUnique(r.value, bytes);
  }

  /** A two-byte big-endian length at `pos`. */
  function U16At(bytes: seq<Byte>, pos: nat): (r: U16)
    requires pos + 2 <= |bytes|
    ensures BigEndian(r, 2) == bytes[pos..pos + 2]
  {
    Pow256Widths();
    EncodeFromBigEndian(bytes[pos..pos + 2]);
    FromBigEndian(bytes[pos..pos + 2])
  }

  function U64At(bytes: seq<Byte>, pos: nat): (r: U64)
    requires pos + 8 <= |bytes|
    ensures BigEndian(r, 8) == bytes[pos..pos + 8]
  {
    Pow256Widths();
    EncodeFromBigEndian(bytes[pos..pos + 8]);
    FromBigEndian(bytes[pos..pos + 8])
  }

  /** A length-prefixed string of at most `max` bytes that opens `rest` shows its length there. */
  lemma PrefixedLayout(s: seq<Byte>, tail: seq<Byte>, bytes: seq<Byte>, pos: nat)
    requires pos <= |bytes| && |s| < 0x1_0000 && Prefixed(s) + tail <= bytes[pos..]
    ensures pos + 2 + |s| + |tail| <= |bytes| && U16At(bytes, pos) == |s|
    ensures s == bytes[pos + 2..pos + 2 + |s|] && tail <= bytes[pos + 2 + |s|..]
  {
    var rest := bytes[pos..];
    assert rest[..2] == BigEndian(|s|, 2) == bytes[pos..pos + 2];
    Pow256Widths();
    BigEndianInjective(|s|, U16At(bytes, pos), 2);
    var all := Prefixed(s) + tail;
    assert all[2..2 + |s|] == s && all[2 + |s|..] == tail;
    assert all == rest[..|all|];
  }

  /** The checks passed by a length-prefixed string of at most `max` bytes at `pos`. */
  predicate PrefixedShape(bytes: seq<Byte>, pos: nat, max: nat) {
    pos + 2 <= |bytes| && U16At(bytes, pos) <= max && pos + 2 + U16At(bytes, pos) <= |bytes|
  }

  lemma PrefixedHaveShape(bytes: seq<Byte>, pos: nat, max: nat)
    requires pos <= |bytes| && max < 0x1_0000
    ensures forall s | |s| <= max && Prefixed(s) <= bytes[pos..] :: PrefixedShape(bytes, pos, max)
  {
    forall s | |s| <= max && Prefixed(s) <= bytes[pos..]
      ensures PrefixedShape(bytes, pos, max)
    {
      assert Prefixed(s) + [] == Prefixed(s);
      PrefixedLayout(s, [], bytes, pos);
    }
  }

  /** A length-prefixed string of at most `max` bytes, read at `pos`. */
  method ReadPrefixed(bytes: seq<Byte>, pos: nat, max: nat) returns (r: Result<seq<Byte>, WireError>)
    requires pos <= |bytes| && max < 0x1_0000
    ensures r.Ok? ==> PrefixedShape(bytes, pos, max) && |r.value| == U16At(bytes, pos)
    ensures r.Ok? ==> bytes[pos..pos + 2 + |r.value|] == Prefixed(r.value)
    ensures r.Err? ==> forall s | |s| <= max :: !(Prefixed(s) <= bytes[pos..])
    ensures r == Err(RecordTooLarge) <==> pos + 2 <= |bytes| && U16At(bytes, pos) > max
    ensures r.Err? ==> r.error in {Truncated, RecordTooLarge}
  {
    if pos + 2 > |bytes| {
      PrefixedHaveShape(bytes, pos, max);
      return Err(Truncated);
    }
    var n := U16At(bytes, pos);
    if n > max {
      PrefixedHaveShape(bytes, pos, max);
      return Err(RecordTooLarge);
    }
    if pos + 2 + n > |bytes| {
      PrefixedHaveShape(bytes, pos, max);
      return Err(Truncated);
    }
    r := Ok(bytes[pos + 2..pos + 2 + n]);
    Join(bytes, pos, pos + 2, pos + 2 + n);
  }

  function SiblingBytes(siblings: seq<Bytes32>): seq<Byte> {
    BigEndian(|siblings|, 2) + HashBytes(siblings)
  }

  predicate SiblingShape(bytes: seq<Byte>, pos: nat) {
    && pos + 2 <= |bytes|
    && U16At(bytes, pos) <= MAX_SIBLINGS
    && pos + 2 + 32 * U16At(bytes, pos) <= |bytes|
  }

  lemma SiblingsHaveShape(bytes: seq<Byte>, pos: nat)
    requires pos <= |bytes|
    ensures forall s | |s| <= MAX_SIBLINGS && SiblingBytes(s) <= bytes[pos..] :: SiblingShape(bytes, pos)
  {
    forall s | |s| <= MAX_SIBLINGS && SiblingBytes(s) <= bytes[pos..]
      ensures SiblingShape(bytes, pos)
    {
      DropPrefix(BigEndian(|s|, 2), HashBytes(s), bytes, pos);
      Pow256Widths();
      BigEndianInjective(|s|, U16At(bytes, pos), 2);
    }
  }

  /** The `n` hashes at `start`. */
  method ReadHashes(bytes: seq<Byte>, start: nat, n: nat) returns (hashes: seq<Bytes32>)
    requires start + 32 * n <= |bytes|
    ensures |hashes| == n && HashBytes(hashes) == bytes[start..start + 32 * n]
  {
    hashes := [];
    var pos := start;
    for k := 0 to n
      invariant pos == start + 32 * k && |hashes| == k && HashBytes(hashes) == bytes[start..pos]
    {
      var s: Bytes32 := bytes[pos..pos + 32];
      assert (hashes + [s])[..k] == hashes;
      Join(bytes, start, pos, pos + 32);
      hashes := hashes + [s];
      pos := pos + 32;
    }
  }

  /** The sibling list: a count and that many hashes. */
  method ReadSiblings(bytes: seq<Byte>, pos: nat) returns (r: Result<seq<Bytes32>, WireError>)
    requires pos <= |bytes|
    ensures r.Ok? ==> |r.value| <= MAX_SIBLINGS && pos + 2 + 32 * |r.value| <= |bytes|
    ensures r.Ok? ==> bytes[pos..pos + 2 + 32 * |r.value|] == SiblingBytes(r.value)
    ensures r.Err? ==> forall s | |s| <= MAX_SIBLINGS :: !(SiblingBytes(s) <= bytes[pos..])
    ensures r.Err? ==> r.error in {Truncated, TooManySiblings}
  {
    if pos + 2 > |bytes| {
      SiblingsHaveShape(bytes, pos);
      return Err(Truncated);
    }
    var n := U16At(bytes, pos);
    if n > MAX_SIBLINGS {
      SiblingsHaveShape(bytes, pos);
      return Err(TooManySiblings);
    }
    if pos + 2 + n * 32 > |bytes| {
      SiblingsHaveShape(bytes, pos);
      return Err(Truncated);
    }
    var siblings := ReadHashes(bytes, pos + 2, n);
    r := Ok(siblings);
    Join(bytes, pos, pos + 2, pos + 2 + 32 * n);
  }

  lemma DropPrefix(a: seq<Byte>, b: seq<Byte>, bytes: seq<Byte>, pos: nat)
    requires pos <= |bytes| && a + b <= bytes[pos..]
    ensures pos + |a| <= |bytes| && a == bytes[pos..pos + |a|] && b <= bytes[pos + |a|..]
  {
    var rest := bytes[pos..];
    assert a == (a + b)[..|a|] && b == (a + b)[|a|..];
    assert a + b == rest[..|a| + |b|];
    assert bytes[pos + |a|..] == rest[|a|..];
  }

  /** What opens with an in-range proof at `pos`. */
  predicate ProofShape(bytes: seq<Byte>, pos: nat, payload: seq<Byte>, siblings: seq<Bytes32>) {
    && pos + 48 <= |bytes|
    && Prefixed(payload) <= bytes[pos + 48..]
    && pos + 50 + |payload| <= |bytes|
    && U16At(bytes, pos + 48) == |payload|
    && SiblingBytes(siblings) <= bytes[pos + 50 + |payload|..]
  }

  lemma ProofHasShape(p: KtInclusionProof, bytes: seq<Byte>, pos: nat)
    requires pos <= |bytes| && ProofInRange(p) && ProofBytes(p) <= bytes[pos..]
    ensures ProofShape(bytes, pos, p.leafPayload, p.siblings)
  {
    var body := Prefixed(p.leafPayload) + SiblingBytes(p.siblings);
    DropPrefix(p.epochRoot, BigEndian(p.treeSize, 8) + (BigEndian(p.leafIndex, 8) + body), bytes, pos);
    DropPrefix(BigEndian(p.treeSize, 8), BigEndian(p.leafIndex, 8) + body, bytes, pos + 32);
    DropPrefix(BigEndian(p.leafIndex, 8), body, bytes, pos + 40);
    PrefixedLayout(p.leafPayload, SiblingBytes(p.siblings), bytes, pos + 48);
    assert Prefixed(p.leafPayload) == body[..|Prefixed(p.leafPayload)|];
  }

  lemma ProofsHaveShape(bytes: seq<Byte>, pos: nat)
    requires pos <= |bytes|
    ensures forall p | ProofInRange(p) && ProofBytes(p) <= bytes[pos..] ::
              ProofShape(bytes, pos, p.leafPayload, p.siblings)
  {
    forall p | ProofInRange(p) && ProofBytes(p) <= bytes[pos..]
      ensures ProofShape(bytes, pos, p.leafPayload, p.siblings)
    {
      ProofHasShape(p, bytes, pos);
    }
  }

  lemma NoProofWithoutPayload(bytes: seq<Byte>, pos: nat)
    requires pos + 48 <= |bytes|
    requires forall s | |s| <= 0xFFFF :: !(Prefixed(s) <= bytes[pos + 48..])
    ensures forall p | ProofInRange(p) :: !(ProofBytes(p) <= bytes[pos..])
  {
    ProofsHaveShape(bytes, pos);
  }

  lemma NoProofWithoutSiblings(bytes: seq<Byte>, pos: nat, at: nat)
    requires pos + 50 <= at <= |bytes| && at == pos + 50 + U16At(bytes, pos + 48)
    requires forall s | |s| <= MAX_SIBLINGS :: !(SiblingBytes(s) <= bytes[at..])
    ensures forall p | ProofInRange(p) :: !(ProofBytes(p) <= bytes[pos..])
  {
    ProofsHaveShape(bytes, pos);
  }

  lemma ProofAssembles(bytes: seq<Byte>, pos: nat, at: nat, end: nat, p: KtInclusionProof)
    requires pos + 48 <= at <= end <= |bytes|
    requires bytes[pos..pos + 32] == p.epochRoot
    requires bytes[pos + 32..pos + 40] == BigEndian(p.treeSize, 8)
    requires bytes[pos + 40..pos + 48] == BigEndian(p.leafIndex, 8)
    requires bytes[pos + 48..at] == Prefixed(p.leafPayload)
    requires bytes[at..end] == SiblingBytes(p.siblings)
    ensures bytes[pos..end] == ProofBytes(p)
  {
    Join(bytes, pos + 48, at, end);
    Join(bytes, pos + 40, pos + 48, end);
    Join(bytes, pos + 32, pos + 40, end);
    Join(bytes, pos, pos + 32, end);
  }

  /** The inclusion proof inside a response, with the position after it. */
  method ReadProof(bytes: seq<Byte>, pos: nat) returns (r: Result<(KtInclusionProof, nat), WireError>)
    requires pos <= |bytes|
    ensures r.Ok? ==> pos <= r.value.1 <= |bytes| && ProofInRange(r.value.0)
    ensures r.Ok? ==> bytes[pos..r.value.1] == ProofBytes(r.value.0)
    ensures r.Err? ==> forall p | ProofInRange(p) :: !(ProofBytes(p) <= bytes[pos..])
    ensures r.Err? ==> r.error in {Truncated, TooManySiblings}
  {
    if pos + 32 > |bytes| || pos + 40 > |bytes| || pos + 48 > |bytes| {
      ProofsHaveShape(bytes, pos);
      return Err(Truncated);
    }
    var epochRoot: Bytes32 := bytes[pos..pos + 32];
    var treeSize := U64At(bytes, pos + 32);
    var leafIndex := U64At(bytes, pos + 40);
    var payload := ReadPrefixed(bytes, pos + 48, 0xFFFF);
    if payload.Err? {
      NoProofWithoutPayload(bytes, pos);
      return Err(payload.error);
    }
    var at := pos + 50 + |payload.value|;
    var siblings := ReadSiblings(bytes, at);
    if siblings.Err? {
      NoProofWithoutSiblings(bytes, pos, at);
      return Err(siblings.error);
    }
    var end := at + 2 + 32 * |siblings.value|;
    r := Ok((KtInclusionProof(epochRoot, treeSize, leafIndex, payload.value, siblings.value), end));
    ProofAssembles(bytes, pos, at, end, r.value.0);
  }

  /** What is the serialisation of an in-range response. */
  predicate ResponseShape(bytes: seq<Byte>, record: seq<Byte>, proof: KtInclusionProof) {
    && |bytes| >= 65
    && bytes[0] == WIRE_VERSION
    && Prefixed(record) <= bytes[65..]
    && 67 + |record| <= |bytes|
    && U16At(bytes, 65) == |record|
    && ProofBytes(proof) <= bytes[67 + |record|..]
    && 67 + |record| + |ProofBytes(proof)| + 64 == |bytes|
  }

  lemma ResponseHasShape(m: UsernameResponse, bytes: seq<Byte>)
    requires UsernameResponseInRange(m) && UsernameResponseBytes(m) == bytes
    ensures ResponseShape(bytes, m.encryptedRecord, m.ktProof)
  {
    var tail := m.serverNonce + m.transcriptTag;
    var body := Prefixed(m.encryptedRecord) + (ProofBytes(m.ktProof) + tail);
    assert bytes[0..] == bytes;
    DropPrefix([m.version], m.anonId + (m.evaluation + body), bytes, 0);
    DropPrefix(m.anonId, m.evaluation + body, bytes, 1);
    DropPrefix(m.evaluation, body, bytes, 33);
    PrefixedLayout(m.encryptedRecord, ProofBytes(m.ktProof) + tail, bytes, 65);
    assert Prefixed(m.encryptedRecord) == body[..|Prefixed(m.encryptedRecord)|];
    DropPrefix(ProofBytes(m.ktProof), tail, bytes, 67 + |m.encryptedRecord|);
  }

  lemma ResponsesHaveShape(bytes: seq<Byte>)
    ensures forall m | UsernameResponseInRange(m) && UsernameResponseBytes(m) == bytes ::
              ResponseShape(bytes, m.encryptedRecord, m.ktProof)
  {
    forall m | UsernameResponseInRange(m) && UsernameResponseBytes(m) == bytes
      ensures ResponseShape(bytes, m.encryptedRecord, m.ktProof)
    {
      ResponseHasShape(m, bytes);
    }
  }

  lemma JoinResponse(bytes: seq<Byte>, at: nat, pos: nat)
    requires 65 <= at <= pos && pos + 64 == |bytes|
    ensures bytes == bytes[..1] + (bytes[1..33] + (bytes[33..65] + (bytes[65..at] +
              (bytes[at..pos] + (bytes[pos..pos + 32] + bytes[pos + 32..pos + 64])))))
  {
    Join(bytes, pos, pos + 32, pos + 64);
    Join(bytes, at, pos, pos + 64);
    Join(bytes, 65, at, pos + 64);
    Join(bytes, 33, 65, pos + 64);
    Join(bytes, 1, 33, pos + 64);
    Join(bytes, 0, 1, pos + 64);
  }

  lemma UsernameResponseUnique(m: UsernameResponse, bytes: seq<Byte>)
    requires UsernameResponseInRange(m) && UsernameResponseBytes(m) == bytes
    ensures forall n | UsernameResponseInRange(n) && UsernameResponseBytes(n) == bytes :: n == m
  {
    forall n | UsernameResponseInRange(n) && UsernameResponseBytes(n) == bytes
      ensures n == m
    {
      UsernameResponsePrefixFree(m, n);
    }
  }

  /** No in-range response is serialised to `bytes`. */
  ghost predicate NoResponse(bytes: seq<Byte>) {
    forall m | UsernameResponseInRange(m) :: UsernameResponseBytes(m) != bytes
  }

  lemma NoResponseWithoutHead(bytes: seq<Byte>)
    requires |bytes| < 65 || bytes[0] != WIRE_VERSION
    ensures NoResponse(bytes)
  {
    ResponsesHaveShape(bytes);
  }

  lemma NoResponseWithoutRecord(bytes: seq<Byte>)
    requires |bytes| >= 65
    requires forall s | |s| <= MAX_USERNAME_RECORD_LEN :: !(Prefixed(s) <= bytes[65..])
    ensures NoResponse(bytes)
  {
    ResponsesHaveShape(bytes);
  }

  lemma NoResponseWithoutProof(bytes: seq<Byte>, at: nat)
    requires 67 <= at <= |bytes| && at == 67 + U16At(bytes, 65)
    requires forall p | ProofInRange(p) :: !(ProofBytes(p) <= bytes[at..])
    ensures NoResponse(bytes)
  {
    ResponsesHaveShape(bytes);
  }

  lemma NoResponseWithOtherTail(bytes: seq<Byte>, at: nat, p: KtInclusionProof, pos: nat)
    requires 67 <= at <= pos <= |bytes| && at == 67 + U16At(bytes, 65)
    requires ProofInRange(p) && ProofBytes(p) == bytes[at..pos] && pos + 64 != |bytes|
    ensures NoResponse(bytes)
  {
    ResponsesHaveShape(bytes);
    SameProof(bytes, at, p, pos);
  }

  method DecodeUsernameResponse(bytes: seq<Byte>) returns (r: Result<UsernameResponse, WireError>)
    ensures r.Ok? ==> UsernameResponseInRange(r.value) && UsernameResponseBytes(r.value) == bytes
    ensures forall m | UsernameResponseInRange(m) && UsernameResponseBytes(m) == bytes :: r == Ok(m)
    ensures r == Err(Empty) <==> bytes == []
    ensures r == Err(VersionMismatch) <==> bytes != [] && bytes[0] != WIRE_VERSION
  {
    if bytes == [] {
      NoResponseWithoutHead(bytes);
      return Err(Empty);
    }
    if bytes[0] != WIRE_VERSION {
      NoResponseWithoutHead(bytes);
      return Err(VersionMismatch);
    }
    if 33 > |bytes| || 65 > |bytes| {
      NoResponseWithoutHead(bytes);
      return Err(Truncated);
    }
    var record := ReadPrefixed(bytes, 65, MAX_USERNAME_RECORD_LEN);
    if record.Err? {
      NoResponseWithoutRecord(bytes);
      return Err(record.error);
    }
    var at := 67 + |record.value|;
    var proof := ReadProof(bytes, at);
    if proof.Err? {
      NoResponseWithoutProof(bytes, at);
      return Err(proof.error);
    }
    var pos := proof.value.1;
    if pos + 32 > |bytes| || pos + 64 > |bytes| {
      NoResponseWithOtherTail(bytes, at, proof.value.0, pos);
      return Err(Truncated);
    }
    if pos + 64 != |bytes| {
      NoResponseWithOtherTail(bytes, at, proof.value.0, pos);
      return Err(TrailingBytes);
    }
    r := Ok(UsernameResponse(WIRE_VERSION, bytes[1..33], bytes[33..65], record.value, proof.value.0,
                             bytes[pos..pos + 32], bytes[pos + 32..pos + 64]));
    ResponseAssembles(bytes, at, pos, r.value);
    UsernameResponseUnique(r.value, bytes);
  }

  lemma ResponseAssembles(bytes: seq<Byte>, at: nat, pos: nat, m: UsernameResponse)
    requires 65 <= at <= pos && pos + 64 == |bytes|
    requires bytes[..1] == [m.version] && bytes[1..33] == m.anonId && bytes[33..65] == m.evaluation
    requires bytes[65..at] == Prefixed(m.encryptedRecord) && bytes[at..pos] == ProofBytes(m.ktProof)
    requires bytes[pos..pos + 32] == m.serverNonce && bytes[pos + 32..pos + 64] == m.transcriptTag
    ensures UsernameResponseBytes(m) == bytes
  {
    JoinResponse(bytes, at, pos);
  }

  /** At most one in-range proof opens a byte string. */
  lemma SameProof(bytes: seq<Byte>, at: nat, p: KtInclusionProof, end: nat)
    requires at <= end <= |bytes| && ProofInRange(p) && ProofBytes(p) == bytes[at..end]
    ensures forall r | ProofInRange(r) && ProofBytes(r) <= bytes[at..] :: |ProofBytes(r)| == end - at
  {
    forall r | ProofInRange(r) && ProofBytes(r) <= bytes[at..]
      ensures |ProofBytes(r)| == end - at
    {
      var rest := bytes[at..];
      assert ProofBytes(p) == rest[..end - at];
      if |ProofBytes(p)| <= |ProofBytes(r)| {
        assert ProofBytes(p) + [] == ProofBytes(p) && ProofBytes(r) + [] == ProofBytes(r);
        ProofSelfDelimiting(p, [], r, []);
      } else {
        assert ProofBytes(p) + [] == ProofBytes(p) && ProofBytes(r) + [] == ProofBytes(r);
        ProofSelfDelimiting(r, [], p, []);
      }
    }
  }
}
