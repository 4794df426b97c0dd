/** The transcript tags that servers attach to their responses (`psi.rs`, `username_lookup.rs`). */
module Transcript {
  import opened Bytes
  import opened Oprf
  import opened Wire

  const PSI_TRANSCRIPT: seq<Byte> := Ascii("umbrella-r7/discovery/psi-transcript/v1")

  const USERNAME_TRANSCRIPT: seq<Byte> := Ascii("umbrella-r7/discovery/username-transcript/v1")

  /** What `compute_transcript_tag` hashes. */
  function PsiTagInput(clientNonce: Bytes32, serverNonce: Bytes32, entries: seq<Entry>, seed: Bytes32): seq<Byte> {
    PSI_TRANSCRIPT + (clientNonce + (serverNonce + (BigEndian(|entries|, 4) + (EntryBytes(entries) + seed))))
  }

  /** `compute_transcript_tag`. */
  function PsiTag(suite: Suite, clientNonce: Bytes32, serverNonce: Bytes32, entries: seq<Entry>, seed: Bytes32)
    : Bytes32
  {
    suite.sha256(PsiTagInput(clientNonce, serverNonce, entries, seed))
  }

  /** What `compute_username_transcript_tag` hashes. */
  function UsernameTagInput(clientNonce: Bytes32, serverNonce: Bytes32, anonId: Bytes32, evaluation: Bytes32,
                            record: seq<Byte>, seed: Bytes32): seq<Byte>
  {
    USERNAME_TRANSCRIPT +
    (clientNonce + (serverNonce + (anonId + (evaluation + (BigEndian(|record|, 4) + (record + seed))))))
  }

  /** `compute_username_transcript_tag`. */
  function UsernameTag(suite: Suite, clientNonce: Bytes32, serverNonce: Bytes32, anonId: Bytes32, evaluation: Bytes32,
                       record: seq<Byte>, seed: Bytes32): Bytes32
  {
    suite.sha256(UsernameTagInput(clientNonce, serverNonce, anonId, evaluation, record, seed))
  }

  /** A tag binds both nonces, every entry and the seed: equal inputs come from equal transcripts. */
  lemma PsiTagInputInjective(c: Bytes32, s: Bytes32, e: seq<Entry>, seed: Bytes32,
                             c': Bytes32, s': Bytes32, e': seq<Entry>, seed': Bytes32)
    requires |e| < 0x1_0000_0000 && |e'| < 0x1_0000_0000
    requires PsiTagInput(c, s, e, seed) == PsiTagInput(c', s', e', seed')
    ensures c == c' && s == s' && e == e' && seed == seed'
  {
    var a3, b3 := EntryBytes(e) + seed, EntryBytes(e') + seed';
    var a2, b2 := BigEndian(|e|, 4) + a3, BigEndian(|e'|, 4) + b3;
    SplitConcat(PSI_TRANSCRIPT, c + (s + a2), PSI_TRANSCRIPT, c' + (s' + b2));
    SplitConcat(c, s + a2, c', s' + b2);
    SplitConcat(s, a2, s', b2);
    SplitConcat(BigEndian(|e|, 4), a3, BigEndian(|e'|, 4), b3);
    Pow256Widths();
    BigEndianInjective(|e|, |e'|, 4);
    SplitConcat(EntryBytes(e), seed, EntryBytes(e'), seed');
    EntryBytesInjective(e, e');
  }

  /** Likewise for a username response. */
  lemma UsernameTagInputInjective(c: Bytes32, s: Bytes32, i: Bytes32, v: Bytes32, d: seq<Byte>, seed: Bytes32,
                                  c': Bytes32, s': Bytes32, i': Bytes32, v': Bytes32, d': seq<Byte>, seed': Bytes32)
    requires |d| < 0x1_0000_0000 && |d'| < 0x1_0000_0000
    requires UsernameTagInput(c, s, i, v, d, seed) == UsernameTagInput(c', s', i', v', d', seed')
    ensures c == c' && s == s' && i == i' && v == v' && d == d' && seed == seed'
  {
    var a4, b4 := BigEndian(|d|, 4) + (d + seed), BigEndian(|d'|, 4) + (d' + seed');
    var a2, b2 := i + (v + a4), i' + (v' + b4);
    SplitConcat(USERNAME_TRANSCRIPT, c + (s + a2), USERNAME_TRANSCRIPT, c' + (s' + b2));
    SplitConcat(c, s + a2, c', s' + b2);
    SplitConcat(s, a2, s', b2);
    SplitConcat(i, v + a4, i', v' + b4);
    SplitConcat(v, a4, v', b4);
    SplitConcat(BigEndian(|d|, 4), d + seed, BigEndian(|d'|, 4), d' + seed');
    Pow256Widths();
    BigEndianInjective(|d|, |d'|, 4);
    SplitConcat(d, seed, d', seed');
  }

  /** Tags of different batch transcripts differ, or the two hashed strings collide. */
  lemma PsiTagsDiffer(suite: Suite, c: Bytes32, s: Bytes32, e: seq<Entry>, seed: Bytes32,
                      c': Bytes32, s': Bytes32, e': seq<Entry>, seed': Bytes32)
    requires |e| < 0x1_0000_0000 && |e'| < 0x1_0000_0000 && (c, s, e, seed) != (c', s', e', seed')
    ensures var x, y := PsiTagInput(c, s, e, seed), PsiTagInput(c', s', e', seed');
            || PsiTag(suite, c, s, e, seed) != PsiTag(suite, c', s', e', seed')
            || (x != y && suite.sha256(x) == suite.sha256(y))
  {
    if PsiTagInput(c, s, e, seed) == PsiTagInput(c', s', e', seed') {
      PsiTagInputInjective(c, s, e, seed, c', s', e', seed');
    }
  }

  /** Likewise for lookup transcripts. */
  lemma UsernameTagsDiffer(suite: Suite, c: Bytes32, s: Bytes32, i: Bytes32, v: Bytes32, d: seq<Byte>, seed: Bytes32,
                           c': Bytes32, s': Bytes32, i': Bytes32, v': Bytes32, d': seq<Byte>, seed': Bytes32)
    requires |d| < 0x1_0000_0000 && |d'| < 0x1_0000_0000 && (c, s, i, v, d, seed) != (c', s', i', v', d', seed')
    ensures var x, y := UsernameTagInput(c, s, i, v, d, seed), UsernameTagInput(c', s', i', v', d', seed');
            || UsernameTag(suite, c, s, i, v, d, seed) != UsernameTag(suite, c', s', i', v', d', seed')
            || (x != y && suite.sha256(x) == suite.sha256(y))
  {
    if UsernameTagInput(c, s, i, v, d, seed) == UsernameTagInput(c', s', i', v', d', seed') {
      UsernameTagInputInjective(c, s, i, v, d, seed, c', s', i', v', d', seed');
    }
  }
}
