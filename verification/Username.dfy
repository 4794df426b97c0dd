/**
  Username lookup (`username_lookup.rs`): an OPRF query whose label opens an encrypted record, checked against the
  key-transparency tree. Random draws are parameters; HKDF and ChaCha20-Poly1305 stay abstract.
 */
module Username {
  import opened Bytes
  import opened Lagrange
  import opened Oprf
  import opened Discovery
  import opened Labels
  import opened Merkle
  import opened KtBind
  import opened Wire
  import opened Transcript

  const USERNAME_AEAD_KEY_LABEL: seq<Byte> := Ascii("umbrella-r7/discovery/username-aead/v1")

  const AEAD_NONCE_LEN: int := 12
  const AEAD_TAG_LEN: int := 16

  type AeadNonce = s: seq<Byte> | |s| == 12 witness seq(12, _ => 0)

  datatype Ciphers = Ciphers(
    hkdf: (Bytes32, seq<Byte>) -> Bytes32,
    anonId: (Bytes32, Byte, Bytes32) -> Bytes32,
    seal: (Bytes32, AeadNonce, seq<Byte>, seq<Byte>) -> seq<Byte>,
    open: (Bytes32, AeadNonce, seq<Byte>, seq<Byte>) -> Option<seq<Byte>>)
  {
    /** Opening a sealed message with the same key, nonce and associated data returns it; sealing adds a tag. */
    ghost predicate Valid() {
      && (forall k, n, a, m :: open(k, n, a, seal(k, n, a, m)) == Some(m))
      && (forall k, n, a, m :: |seal(k, n, a, m)| == |m| + AEAD_TAG_LEN)
    }
  }

  datatype QueryState = QueryState(blinding: int, handle: seq<Byte>, clientNonce: Bytes32)

  /** `prepare_username_query` with its random draws `r`, `salt` and `clientNonce`. */
  function PrepareUsernameQuery(suite: Suite, c: Ciphers, masterKey: Bytes32, handle: seq<Byte>, witnessIndex: Byte,
                                r: int, salt: Bytes32, clientNonce: Bytes32)
    : Result<(UsernameRequest, QueryState), DiscoveryError>
    requires suite.q > 0
  {
    if witnessIndex == 0 || witnessIndex > 5 then Err(InputRejected)
    else if !AcceptedInput(handle) then Err(InputRejected)
    else
      var blinded := Blind(suite, handle, r);
      if blinded.Err? then Err(OprfFailure(blinded.error))
      else
        Ok((UsernameRequest(WIRE_VERSION, witnessIndex, c.anonId(masterKey, witnessIndex, salt), blinded.value,
                            clientNonce),
            QueryState(r, handle, clientNonce)))
  }

  /** `build_aead_aad`. */
  function RecordAad(clientNonce: Bytes32, anonId: Bytes32): seq<Byte> {
    clientNonce + anonId
  }

  /** `derive_aead_key_from_label`. */
  function RecordKey(c: Ciphers, oprfLabel: Bytes32, handle: seq<Byte>): Bytes32 {
    c.hkdf(oprfLabel, USERNAME_AEAD_KEY_LABEL + (BigEndian(|handle|, 2) + handle))
  }

  /** What HKDF expands: the label as key material, the framed handle as context. */
  function RecordKeyInput(oprfLabel: Bytes32, handle: seq<Byte>): (Bytes32, seq<Byte>) {
    (oprfLabel, USERNAME_AEAD_KEY_LABEL + BigEndian(|handle|, 2) + handle)
  }

  /** Records of different labels or handles have different keys, or two inputs collide under HKDF. */
  lemma RecordKeysDiffer(c: Ciphers, l: Bytes32, handle: seq<Byte>, l': Bytes32, handle': seq<Byte>)
    requires AcceptedInput(handle) && AcceptedInput(handle') && (l, handle) != (l', handle')
    ensures var x, y := RecordKeyInput(l, handle), RecordKeyInput(l', handle');
            || RecordKey(c, l, handle) != RecordKey(c, l', handle')
            || (x != y && c.hkdf(x.0, x.1) == c.hkdf(y.0, y.1))
  {
    var x, y := RecordKeyInput(l, handle), RecordKeyInput(l', handle');
    var a, b := BigEndian(|handle|, 2), BigEndian(|handle'|, 2);
    assert x.1 == USERNAME_AEAD_KEY_LABEL + (a + handle) && y.1 == USERNAME_AEAD_KEY_LABEL + (b + handle');
    if x == y {
      SplitConcat(USERNAME_AEAD_KEY_LABEL, a + handle, USERNAME_AEAD_KEY_LABEL, b + handle');
      SplitConcat(a, handle, b, handle');
    }
  }

  /** `username_server_respond` with its random draws; `shareBytes` is the encoding of `share` that the server holds. */
  function UsernameServerRespond(suite: Suite, c: Ciphers, request: UsernameRequest, share: int, shareBytes: Bytes32,
                                 pk: Bytes32, proof: KtInclusionProof, recordKey: Bytes32, nonce: AeadNonce,
                                 serverNonce: Bytes32)
    : Result<UsernameResponse, DiscoveryError>
    requires suite.q > 0
  {
    var evaluation := Evaluate(suite, request.blinded, share);
    if evaluation.Err? then Err(OprfFailure(evaluation.error))
    else
      var sealed := c.seal(recordKey, nonce, RecordAad(request.clientNonce, request.anonId), pk + proof.epochRoot);
      if AEAD_NONCE_LEN + |sealed| > MAX_USERNAME_RECORD_LEN then Err(CryptoInternal)
      else
        var tag := UsernameTag(suite, request.clientNonce, serverNonce, request.anonId, evaluation.value,
                               nonce + sealed, shareBytes);
        Ok(UsernameResponse(WIRE_VERSION, request.anonId, evaluation.value, nonce + sealed, proof, serverNonce, tag))
  }

  type Responses = seq<(WitnessIndex, UsernameResponse)>

  /** The partial evaluations of a list of responses. */
  function Partials(responses: Responses): (r: seq<(WitnessIndex, Bytes32)>)
    ensures |r| == |responses|
    ensures forall i :: 0 <= i < |r| ==> r[i] == (responses[i].0, responses[i].1.evaluation)
  {
    seq(|responses|, i requires 0 <= i < |responses| => (responses[i].0, responses[i].1.evaluation))
  }

  /** What the encrypted record of a response opens to under `key`. */
  function OpenRecord(c: Ciphers, state: QueryState, primary: UsernameResponse, key: Bytes32): Option<seq<Byte>> {
    var record := primary.encryptedRecord;
    if |record| < AEAD_NONCE_LEN + AEAD_TAG_LEN then None
    else c.open(key, record[..AEAD_NONCE_LEN], RecordAad(state.clientNonce, primary.anonId), record[AEAD_NONCE_LEN..])
  }

  /** What the client expects of the proof once the record named the key `pk`. */
  function UsernameExpectation(state: QueryState, root: Bytes32, epoch: U64, pk: Bytes32): Expectation {
    Expectation(epoch, root, Some(pk), 1, state.handle)
  }

  /**
    The record of a response opens to the key `pk` and the root of its proof, under the key that HKDF expands from the
    label for the queried handle, and with the client's nonce and the response's id as associated data.
   */
  predicate Opens(c: Ciphers, oprfLabel: Bytes32, state: QueryState, primary: UsernameResponse, pk: Bytes32) {
    var record := primary.encryptedRecord;
    var info := USERNAME_AEAD_KEY_LABEL + BigEndian(|state.handle|, 2) + state.handle;
    && |record| >= 28
    && c.open(c.hkdf(oprfLabel, info), record[..12], state.clientNonce + primary.anonId, record[12..]) ==
       Some(pk + primary.ktProof.epochRoot)
  }

  lemma OpensIff(c: Ciphers, oprfLabel: Bytes32, state: QueryState, primary: UsernameResponse, pk: Bytes32)
    ensures Opens(c, oprfLabel, state, primary, pk) <==>
            OpenRecord(c, state, primary, RecordKey(c, oprfLabel, state.handle)) ==
            Some(pk + primary.ktProof.epochRoot)
  {
    var framed := BigEndian(|state.handle|, 2) + state.handle;
    assert USERNAME_AEAD_KEY_LABEL + BigEndian(|state.handle|, 2) + state.handle == USERNAME_AEAD_KEY_LABEL + framed;
  }

  /** When a lookup returns the key `pk`. */
  ghost predicate LookupYields(suite: Suite, c: Ciphers, h: Hasher, state: QueryState, responses: Responses,
                               root: Bytes32, epoch: U64, config: ThresholdConfig, pk: Bytes32)
    requires suite.q > 0
  {
    && |responses| >= config.threshold
    && var oprfLabel := LabelOf(suite, state.blinding, state.handle, Partials(responses), config);
    && oprfLabel.Some?
    && |responses| > 0
    && var primary := responses[0].1;
    && Opens(c, oprfLabel.value, state, primary, pk)
    && Binds(h, primary.ktProof, UsernameExpectation(state, root, epoch, pk), pk)
  }

  /** A record that does not open to 64 bytes is a forgery; one whose root is not the proof's is a mismatch. */
  predicate FailsWith(c: Ciphers, oprfLabel: Bytes32, state: QueryState, primary: UsernameResponse, e: DiscoveryError) {
    var plaintext := OpenRecord(c, state, primary, RecordKey(c, oprfLabel, state.handle));
    if plaintext.None? || |plaintext.value| != 64 then e == UsernameForgeDetected
    else e.KtBindFailed? && (plaintext.value[32..] != primary.ktProof.epochRoot ==> e.kind == ProofMismatch)
  }

  /** `finalize_username_query`. */
  method FinalizeUsernameQuery(suite: Suite, c: Ciphers, h: Hasher, state: QueryState, responses: Responses,
                               root: Bytes32, epoch: U64, config: ThresholdConfig)
    returns (r: Result<(Bytes32, KtInclusionProof), DiscoveryError>)
    requires suite.q > 0
    ensures r.Ok? ==> LookupYields(suite, c, h, state, responses, root, epoch, config, r.value.0)
    ensures r.Ok? ==> |responses| > 0 && r.value.1 == responses[0].1.ktProof
    ensures forall pk | LookupYields(suite, c, h, state, responses, root, epoch, config, pk) ::
              |responses| > 0 && r == Ok((pk, responses[0].1.ktProof))
    ensures r == Err(InsufficientResponses(|responses|, config.threshold)) <==> |responses| < config.threshold
    ensures var oprfLabel := LabelOf(suite, state.blinding, state.handle, Partials(responses), config);
            r.Err? && config.threshold <= |responses| ==>
              && (oprfLabel.None? <==> r.error.OprfFailure? || r.error.InputRejected?)
              && (oprfLabel.Some? ==> |responses| > 0 && FailsWith(c, oprfLabel.value, state, responses[0].1, r.error))
  {
    if |responses| < config.threshold {
      return Err(InsufficientResponses(|responses|, config.threshold));
    }
    var oprfLabel := FinalizeLabel(suite, state.blinding, state.handle, Partials(responses), config);
    if oprfLabel.Err? {
      return Err(oprfLabel.error);
    }
    var key := RecordKey(c, oprfLabel.value, state.handle);
    var primary := responses[0].1;
    AllOpenIff(c, oprfLabel.value, state, primary);
    if |primary.encryptedRecord| < AEAD_NONCE_LEN + 16 {
      return Err(UsernameForgeDetected);
    }
    var plaintext := OpenRecord(c, state, primary, key);
    if plaintext.None? || |plaintext.value| != 32 + 32 {
      return Err(UsernameForgeDetected);
    }
    var pk: Bytes32 := plaintext.value[..32];
    var recordRoot: Bytes32 := plaintext.value[32..];
    assert plaintext.value == pk + recordRoot;
    RecordParts(plaintext.value, primary.ktProof.epochRoot);
    if recordRoot != primary.ktProof.epochRoot {
      return Err(KtBindFailed(ProofMismatch));
    }
    var bound := VerifyDiscoveryBind(h, primary.ktProof, UsernameExpectation(state, root, epoch, pk));
    if bound.Err? {
      return Err(KtBindFailed(bound.error));
    }
    r := Ok((pk, primary.ktProof));
  }

  lemma AllOpenIff(c: Ciphers, oprfLabel: Bytes32, state: QueryState, primary: UsernameResponse)
    ensures forall pk :: Opens(c, oprfLabel, state, primary, pk) <==>
              OpenRecord(c, state, primary, RecordKey(c, oprfLabel, state.handle)) ==
              Some(pk + primary.ktProof.epochRoot)
  {
    forall pk
      ensures Opens(c, oprfLabel, state, primary, pk) <==>
              OpenRecord(c, state, primary, RecordKey(c, oprfLabel, state.handle)) ==
              Some(pk + primary.ktProof.epochRoot)
    {
      OpensIff(c, oprfLabel, state, primary, pk);
    }
  }

  lemma RecordParts(plaintext: seq<Byte>, root: Bytes32)
    requires |plaintext| == 64
    ensures forall pk: Bytes32 | plaintext == pk + root :: pk == plaintext[..32] && root == plaintext[32..]
  {
  }

  /**
    Whatever the servers answered, a returned key is bound to the queried handle and epoch in the pinned tree, or the
    served proof yields a hash collision.
   */
  lemma LookupIsBound(suite: Suite, c: Ciphers, h: Hasher, state: QueryState, responses: Responses, root: Bytes32,
                      epoch: U64, config: ThresholdConfig, pk: Bytes32, leaves: seq<seq<Byte>>)
    requires suite.q > 0
    requires LookupYields(suite, c, h, state, responses, root, epoch, config, pk)
    requires MerkleRoot(h, LeafHashes(h, leaves)) == root
    ensures || CanonicalLeafPayload(1, state.handle, pk, epoch) in leaves
            || IsCollision(h, ProofDeparture(h, leaves, responses[0].1.ktProof))
  {
    var e := UsernameExpectation(state, root, epoch, pk);
    BoundKeyIsLogged(h, leaves, responses[0].1.ktProof, e, pk);
  }

  /**
    The first `n` servers are honest: each holds its share of `cs`, and serves the registered proof and a record sealed
    under the key that HKDF expands from the master label of the handle.
   */
  ghost predicate HonestResponses(suite: Suite, c: Ciphers, request: UsernameRequest, cs: seq<int>, pk: Bytes32,
                                  proof: KtInclusionProof, handle: seq<Byte>, responses: Responses, n: int)
    requires suite.q > 0 && n <= |responses|
  {
    var info := USERNAME_AEAD_KEY_LABEL + BigEndian(|handle|, 2) + handle;
    var recordKey := c.hkdf(MasterLabel(suite, Eval(cs, 0), handle), info);
    forall i :: 0 <= i < n ==>
      HonestResponse(suite, c, request, Eval(cs, responses[i].0), pk, proof, recordKey, responses[i].1)
  }

  /** A response that answers the request with the share's evaluation and such a record. */
  ghost predicate HonestResponse(suite: Suite, c: Ciphers, request: UsernameRequest, share: int, pk: Bytes32,
                                 proof: KtInclusionProof, recordKey: Bytes32, response: UsernameResponse)
    requires suite.q > 0
  {
    && Evaluate(suite, request.blinded, share) == Ok(response.evaluation)
    && response.anonId == request.anonId && response.ktProof == proof
    && exists nonce: AeadNonce :: response.encryptedRecord ==
         nonce + c.seal(recordKey, nonce, request.clientNonce + request.anonId, pk + proof.epochRoot)
  }

  /** `username_server_respond` answers exactly when it can evaluate and the record fits, and then honestly. */
  lemma ServerIsHonest(suite: Suite, c: Ciphers, request: UsernameRequest, share: int, shareBytes: Bytes32, pk: Bytes32,
                       proof: KtInclusionProof, recordKey: Bytes32, nonce: AeadNonce, serverNonce: Bytes32)
    requires suite.q > 0 && c.Valid()
    ensures var r := UsernameServerRespond(suite, c, request, share, shareBytes, pk, proof, recordKey, nonce,
                                           serverNonce);
            && (r.Ok? <==> Evaluate(suite, request.blinded, share).Ok?)
            && (r.Ok? ==>
                  && HonestResponse(suite, c, request, share, pk, proof, recordKey, r.value)
                  && r.value.version == 1 && r.value.serverNonce == serverNonce
                  && r.value.encryptedRecord[..12] == nonce && |r.value.encryptedRecord| == 92
                  && r.value.transcriptTag ==
                     UsernameTag(suite, request.clientNonce, serverNonce, request.anonId, r.value.evaluation,
                                 r.value.encryptedRecord, shareBytes))
  {
    var r := UsernameServerRespond(suite, c, request, share, shareBytes, pk, proof, recordKey, nonce, serverNonce);
    var plaintext := pk + proof.epochRoot;
    var sealed := c.seal(recordKey, nonce, request.clientNonce + request.anonId, plaintext);
    assert |plaintext| == 64 && |sealed| == 80;
    if r.Ok? {
      assert r.value.encryptedRecord == nonce + sealed;
    }
  }

  /** An honest record opens to the registered key and the proof's root. */
  lemma HonestRecordOpens(suite: Suite, c: Ciphers, request: UsernameRequest, state: QueryState, share: int,
                          pk: Bytes32, proof: KtInclusionProof, oprfLabel: Bytes32, response: UsernameResponse)
    requires suite.q > 0 && c.Valid() && state.clientNonce == request.clientNonce
    requires var info := USERNAME_AEAD_KEY_LABEL + BigEndian(|state.handle|, 2) + state.handle;
             HonestResponse(suite, c, request, share, pk, proof, c.hkdf(oprfLabel, info), response)
    ensures Opens(c, oprfLabel, state, response, pk)
  {
    var key := c.hkdf(oprfLabel, USERNAME_AEAD_KEY_LABEL + BigEndian(|state.handle|, 2) + state.handle);
    var nonce: AeadNonce :| response.encryptedRecord ==
      nonce + c.seal(key, nonce, request.clientNonce + request.anonId, pk + proof.epochRoot);
    var sealed := c.seal(key, nonce, request.clientNonce + request.anonId, pk + proof.epochRoot);
    assert (nonce + sealed)[..12] == nonce && (nonce + sealed)[12..] == sealed;
  }

  /** When the first response is honest, a lookup yields its key once the master label is known. */
  lemma HonestRecordYields(suite: Suite, c: Ciphers, h: Hasher, request: UsernameRequest, state: QueryState,
                           cs: seq<int>, leaves: seq<seq<Byte>>, index: nat, pk: Bytes32, epoch: U64,
                           responses: Responses, config: ThresholdConfig)
    requires suite.q > 0 && c.Valid() && state.clientNonce == request.clientNonce
    requires index < |leaves| < 0x1_0000_0000_0000_0000
    requires leaves[index] == CanonicalLeafPayload(1, state.handle, pk, epoch)
    requires 0 < |responses| && config.threshold <= |responses|
    requires HonestResponses(suite, c, request, cs, pk, HonestProof(h, leaves, index), state.handle, responses, 1)
    requires LabelOf(suite, state.blinding, state.handle, Partials(responses), config) ==
             Some(MasterLabel(suite, Eval(cs, 0), state.handle))
    ensures LookupYields(suite, c, h, state, responses, MerkleRoot(h, LeafHashes(h, leaves)), epoch, config, pk)
  {
    var proof, root := HonestProof(h, leaves, index), MerkleRoot(h, LeafHashes(h, leaves));
    var oprfLabel := MasterLabel(suite, Eval(cs, 0), state.handle);
    var primary, expectation := responses[0], UsernameExpectation(state, root, epoch, pk);
    assert primary.1.ktProof == proof && Opens(c, oprfLabel, state, primary.1, pk) by {
      HonestRecordOpens(suite, c, request, state, Eval(cs, primary.0), pk, proof, oprfLabel, primary.1);
    }
    assert Binds(h, proof, expectation, pk) by {
      HonestProofBinds(h, leaves, index, expectation, pk);
    }
  }

  /**
    Completeness: when the first `threshold` respondents are honest, whichever servers they are, a prepared lookup
    returns exactly the key registered for the handle if and only if the master key is not zero and the elements of
    the other responses decode; otherwise it returns no key.
   */
  lemma HonestLookupYields(suite: Suite, c: Ciphers, h: Hasher, masterKey: Bytes32, handle: seq<Byte>,
                           witnessIndex: Byte, r: int, salt: Bytes32, clientNonce: Bytes32, request: UsernameRequest,
                           state: QueryState, cs: seq<int>, leaves: seq<seq<Byte>>, index: nat, pk: Bytes32, epoch: U64,
                           responses: Responses, config: ThresholdConfig, other: Bytes32)
    requires suite.Valid() && c.Valid() && ValidConfig(config) && r % suite.q != 0
    requires PrepareUsernameQuery(suite, c, masterKey, handle, witnessIndex, r, salt, clientNonce) ==
             Ok((request, state))
    requires index < |leaves| < 0x1_0000_0000_0000_0000
    requires leaves[index] == CanonicalLeafPayload(1, handle, pk, epoch)
    requires |cs| <= config.threshold <= |responses| && DistinctIndices(Partials(responses), config.total)
    requires HonestResponses(suite, c, request, cs, pk, HonestProof(h, leaves, index), handle, responses,
                             config.threshold)
    ensures var root := MerkleRoot(h, LeafHashes(h, leaves));
            var works := Eval(cs, 0) % suite.q != 0 && RestDecodes(suite, Partials(responses), config.threshold);
            && (LookupYields(suite, c, h, state, responses, root, epoch, config, pk) <==> works)
            && (!works ==> !LookupYields(suite, c, h, state, responses, root, epoch, config, other))
  {
    PreparedQuery(suite, c, masterKey, handle, witnessIndex, r, salt, clientNonce);
    HonestQueryYields(suite, c, h, request, state, cs, leaves, index, pk, epoch, responses, config, other);
  }

  lemma HonestQueryYields(suite: Suite, c: Ciphers, h: Hasher, request: UsernameRequest, state: QueryState,
                          cs: seq<int>, leaves: seq<seq<Byte>>, index: nat, pk: Bytes32, epoch: U64,
                          responses: Responses, config: ThresholdConfig, other: Bytes32)
    requires suite.Valid() && c.Valid() && ValidConfig(config) && state.clientNonce == request.clientNonce
    requires state.blinding % suite.q != 0 && AcceptedInput(state.handle)
    requires Blind(suite, state.handle, state.blinding) == Ok(request.blinded)
    requires index < |leaves| < 0x1_0000_0000_0000_0000
    requires leaves[index] == CanonicalLeafPayload(1, state.handle, pk, epoch)
    requires |cs| <= config.threshold <= |responses| && DistinctIndices(Partials(responses), config.total)
    requires HonestResponses(suite, c, request, cs, pk, HonestProof(h, leaves, index), state.handle, responses,
                             config.threshold)
    ensures var root := MerkleRoot(h, LeafHashes(h, leaves));
            var works := Eval(cs, 0) % suite.q != 0 && RestDecodes(suite, Partials(responses), config.threshold);
            && (LookupYields(suite, c, h, state, responses, root, epoch, config, pk) <==> works)
            && (!works ==> !LookupYields(suite, c, h, state, responses, root, epoch, config, other))
  {
    HonestQueryLabel(suite, c, request, state, cs, pk, HonestProof(h, leaves, index), responses, config);
    if Eval(cs, 0) % suite.q != 0 && RestDecodes(suite, Partials(responses), config.threshold) {
      HonestRecordYields(suite, c, h, request, state, cs, leaves, index, pk, epoch, responses, config);
    } else {
      var root := MerkleRoot(h, LeafHashes(h, leaves));
      NoLabelNoKey(suite, c, h, state, responses, root, epoch, config, pk);
      NoLabelNoKey(suite, c, h, state, responses, root, epoch, config, other);
    }
  }

  /** A query is prepared exactly for witness indices 1 to 5 and handles of 1 to 512 bytes that can be blinded. */
  lemma PreparedQuery(suite: Suite, c: Ciphers, masterKey: Bytes32, handle: seq<Byte>, witnessIndex: Byte, r: int,
                      salt: Bytes32, clientNonce: Bytes32)
    requires suite.q > 0
    ensures var prepared := PrepareUsernameQuery(suite, c, masterKey, handle, witnessIndex, r, salt, clientNonce);
            && (prepared.Ok? <==> 1 <= witnessIndex <= 5 && 1 <= |handle| <= 512 && Blind(suite, handle, r).Ok?)
            && (prepared.Ok? ==>
                  var (request, state) := prepared.value;
                  && state == QueryState(r, handle, clientNonce)
                  && request.version == 1 && request.witnessIndex == witnessIndex
                  && request.anonId == c.anonId(masterKey, witnessIndex, salt)
                  && Ok(request.blinded) == Blind(suite, handle, r) && request.clientNonce == clientNonce)
            && (prepared == Err(InputRejected) <==> !(1 <= witnessIndex <= 5 && 1 <= |handle| <= 512))
  {
  }

  /** The label that responses to a prepared query lead to when the first ones are honest. */
  lemma HonestQueryLabel(suite: Suite, c: Ciphers, request: UsernameRequest, state: QueryState, cs: seq<int>,
                         pk: Bytes32, proof: KtInclusionProof, responses: Responses, config: ThresholdConfig)
    requires suite.Valid() && c.Valid() && ValidConfig(config) && state.clientNonce == request.clientNonce
    requires state.blinding % suite.q != 0 && AcceptedInput(state.handle)
    requires Blind(suite, state.handle, state.blinding) == Ok(request.blinded)
    requires |cs| <= config.threshold <= |responses| && DistinctIndices(Partials(responses), config.total)
    requires HonestResponses(suite, c, request, cs, pk, proof, state.handle, responses, config.threshold)
    ensures LabelOf(suite, state.blinding, state.handle, Partials(responses), config) ==
            if Eval(cs, 0) % suite.q == 0 || !RestDecodes(suite, Partials(responses), config.threshold) then None
            else Some(MasterLabel(suite, Eval(cs, 0), state.handle))
  {
    HonestEvaluations(suite, c, request, cs, pk, proof, state.handle, responses, config.threshold);
    HonestLabel(suite, cs, state.handle, state.blinding, request.blinded, Partials(responses), config);
  }

  lemma NoLabelNoKey(suite: Suite, c: Ciphers, h: Hasher, state: QueryState, responses: Responses, root: Bytes32,
                     epoch: U64, config: ThresholdConfig, pk: Bytes32)
    requires suite.q > 0 && LabelOf(suite, state.blinding, state.handle, Partials(responses), config).None?
    ensures !LookupYields(suite, c, h, state, responses, root, epoch, config, pk)
  {
  }

  lemma HonestEvaluations(suite: Suite, c: Ciphers, request: UsernameRequest, cs: seq<int>, pk: Bytes32,
                          proof: KtInclusionProof, handle: seq<Byte>, responses: Responses, n: int)
    requires suite.q > 0 && n <= |responses|
    requires HonestResponses(suite, c, request, cs, pk, proof, handle, responses, n)
    ensures HonestShares(suite, cs, request.blinded, Partials(responses), n)
  {
  }
}
