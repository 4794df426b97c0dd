/**
  Private contact discovery (`psi.rs`): the client blinds a batch of contacts, servers holding Shamir shares evaluate
  it, the client combines, unblinds and looks the labels up in the server table. Random draws are parameters.
 */
module Psi {
  import opened Bytes
  import opened Lagrange
  import opened Oprf
  import opened Discovery
  import opened Labels
  import opened Wire
  import opened Transcript

  type AnonIds = (Bytes32, Byte, Bytes32) -> Bytes32
  type Responses = seq<(WitnessIndex, PsiResponse)>

  /** `PsiQueryState`: the blinding scalars and the raw contacts, position by position. */
  datatype PsiQueryState = PsiQueryState(states: seq<int>, inputs: seq<seq<Byte>>)

  /** The contacts `blind` accepts. */
  predicate Blindable(suite: Suite, contact: seq<Byte>) {
    AcceptedInput(contact) && suite.hashToGroup(contact) != 0
  }

  /** `prepare_psi_query` with its random draws `blinds`, `salt` and `clientNonce`. */
  method PreparePsiQuery(suite: Suite, anonIds: AnonIds, masterKey: Bytes32, contacts: seq<seq<Byte>>,
                         witnessIndex: Byte, blinds: seq<int>, salt: Bytes32, clientNonce: Bytes32)
    returns (r: Result<(PsiRequest, PsiQueryState), DiscoveryError>)
    requires suite.q > 0 && |blinds| == |contacts|
    ensures r.Ok? <==>
            && 1 <= |contacts| <= MAX_PSI_BATCH
            && 1 <= witnessIndex <= 5
            && forall i :: 0 <= i < |contacts| ==> Blindable(suite, contacts[i])
    ensures r.Ok? ==> r.value.1 == PsiQueryState(blinds, contacts)
    ensures r.Ok? ==> var m := r.value.0;
            && PsiRequestInRange(m) && |m.entries| == |contacts|
            && m.clientNonce == clientNonce && m.witnessIndex == witnessIndex
            && forall i :: 0 <= i < |contacts| ==>
                 && m.entries[i].anonId == anonIds(masterKey, witnessIndex, salt)
                 && Ok(m.entries[i].element) == Blind(suite, contacts[i], blinds[i])
    ensures r == Err(InvalidPsiBatchSize(|contacts|, 1024)) <==> !(1 <= |contacts| <= 1024)
    ensures r.Ok? ==> forall i :: 0 <= i < |contacts| ==> 1 <= |contacts[i]| <= 512
    ensures 1 <= |contacts| <= 1024 && !(1 <= witnessIndex <= 5) ==> r == Err(InputRejected)
  {
    if |contacts| == 0 || |contacts| > MAX_PSI_BATCH {
      return Err(InvalidPsiBatchSize(|contacts|, MAX_PSI_BATCH));
    }
    if witnessIndex == 0 || witnessIndex > 5 {
      return Err(InputRejected);
    }
    var entries: seq<Entry>, states: seq<int>, inputs: seq<seq<Byte>> := [], [], [];
    for k := 0 to |contacts|
      invariant |entries| == k && states == blinds[..k] && inputs == contacts[..k]
      invariant forall i :: 0 <= i < k ==> Blindable(suite, contacts[i])
      invariant forall i :: 0 <= i < k ==>
                  && entries[i].anonId == anonIds(masterKey, witnessIndex, salt)
                  && Ok(entries[i].element) == Blind(suite, contacts[i], blinds[i])
    {
      if !AcceptedInput(contacts[k]) {
        return Err(InputRejected);
      }
      var blinded := Blind(suite, contacts[k], blinds[k]);
      if blinded.Err? {
        return Err(OprfFailure(blinded.error));
      }
      entries := entries + [Entry(anonIds(masterKey, witnessIndex, salt), blinded.value)];
      states := states + [blinds[k]];
      inputs := inputs + [contacts[k]];
    }
    r := Ok((PsiRequest(WIRE_VERSION, entries, clientNonce, witnessIndex), PsiQueryState(states, inputs)));
  }

  /** A response whose every entry is the server's evaluation of the request entry at the same position. */
  ghost predicate EvaluatedBy(suite: Suite, request: PsiRequest, share: int, response: PsiResponse)
    requires suite.q > 0
  {
    && |response.entries| == |request.entries|
    && forall i :: 0 <= i < |request.entries| ==>
         && response.entries[i].anonId == request.entries[i].anonId
         && Evaluate(suite, request.entries[i].element, share) == Ok(response.entries[i].element)
  }

  /** The server cannot evaluate the element, and `e` says why. */
  predicate FailsAt(suite: Suite, element: Bytes32, share: int, e: DiscoveryError)
    requires suite.q > 0
  {
    var answer := Evaluate(suite, element, share);
    answer.Err? && e == OprfFailure(answer.error)
  }

  /** `psi_server_respond` with its random nonce; `shareBytes` is the encoding of `share` that the server holds. */
  method PsiServerRespond(suite: Suite, request: PsiRequest, share: int, shareBytes: Bytes32, serverNonce: Bytes32)
    returns (r: Result<PsiResponse, DiscoveryError>)
    requires suite.q > 0
    ensures r.Ok? ==> EvaluatedBy(suite, request, share, r.value)
    ensures r.Ok? ==>
              && r.value.version == WIRE_VERSION && r.value.serverNonce == serverNonce
              && r.value.transcriptTag == PsiTag(suite, request.clientNonce, serverNonce, r.value.entries, shareBytes)
    ensures r.Ok? <==> forall i :: 0 <= i < |request.entries| ==> Evaluate(suite, request.entries[i].element, share).Ok?
    ensures r.Err? ==>
              exists i :: 0 <= i < |request.entries| && FailsAt(suite, request.entries[i].element, share, r.error)
  {
    var entries: seq<Entry> := [];
    for k := 0 to |request.entries|
      invariant |entries| == k
      invariant forall i :: 0 <= i < k ==>
                  && entries[i].anonId == request.entries[i].anonId
                  && Evaluate(suite, request.entries[i].element, share) == Ok(entries[i].element)
    {
      var e := Evaluate(suite, request.entries[k].element, share);
      if e.Err? {
        assert FailsAt(suite, request.entries[k].element, share, OprfFailure(e.error));
        return Err(OprfFailure(e.error));
      }
      entries := entries + [Entry(request.entries[k].anonId, e.value)];
    }
    var tag := PsiTag(suite, request.clientNonce, serverNonce, entries, shareBytes);
    r := Ok(PsiResponse(WIRE_VERSION, entries, serverNonce, tag));
  }

  /** All responses carry `n` entries. */
  predicate SameLength(responses: Responses, n: nat) {
    forall j :: 0 <= j < |responses| ==> |responses[j].1.entries| == n
  }

  /** The partial evaluations at position `i`. */
  function PartialsAt(responses: Responses, n: nat, i: nat): (r: seq<(WitnessIndex, Bytes32)>)
    requires SameLength(responses, n) && i < n
    ensures |r| == |responses|
    ensures forall j :: 0 <= j < |r| ==> r[j] == (responses[j].0, responses[j].1.entries[i].element)
  {
    seq(|responses|, j requires 0 <= j < |responses| => (responses[j].0, responses[j].1.entries[i].element))
  }

  /** `finalize_psi_query`. */
  method FinalizePsiQuery(suite: Suite, state: PsiQueryState, responses: Responses, config: ThresholdConfig)
    returns (r: Result<seq<Bytes32>, DiscoveryError>)
    requires suite.q > 0 && |state.inputs| == |state.states|
    ensures var n := |state.states|;
            r.Ok? <==>
            && config.threshold <= |responses|
            && SameLength(responses, n)
            && forall i :: 0 <= i < n ==>
                 LabelOf(suite, state.states[i], state.inputs[i], PartialsAt(responses, n, i), config).Some?
    ensures r.Ok? ==> var n := |state.states|;
            && |r.value| == n && SameLength(responses, n)
            && forall i :: 0 <= i < n ==>
                 Some(r.value[i]) ==
                 LabelOf(suite, state.states[i], state.inputs[i], PartialsAt(responses, n, i), config)
    ensures r == Err(InsufficientResponses(|responses|, config.threshold)) <==> |responses| < config.threshold
    ensures r == Err(EntriesCountMismatch) <==>
            config.threshold <= |responses| && !SameLength(responses, |state.states|)
  {
    if |responses| < config.threshold {
      return Err(InsufficientResponses(|responses|, config.threshold));
    }
    var n := |state.states|;
    for j := 0 to |responses|
      invariant forall i :: 0 <= i < j ==> |responses[i].1.entries| == n
    {
      if |responses[j].1.entries| != n {
        return Err(EntriesCountMismatch);
      }
    }
    var labels: seq<Bytes32> := [];
    for i := 0 to n
      invariant |labels| == i
      invariant forall k :: 0 <= k < i ==>
                  Some(labels[k]) ==
                  LabelOf(suite, state.states[k], state.inputs[k], PartialsAt(responses, n, k), config)
    {
      var received := PartialsAt(responses, n, i);
      var found := FinalizeLabel(suite, state.states[i], state.inputs[i], received, config);
      if found.Err? {
        assert LabelOf(suite, state.states[i], state.inputs[i], PartialsAt(responses, n, i), config).None?;
        return Err(found.error);
      }
      labels := labels + [found.value];
    }
    r := Ok(labels);
  }

  ghost predicate Ascending(s: seq<nat>) {
    forall i, j :: 0 <= i < j < |s| ==> s[i] < s[j]
  }

  /** `intersect_with_server_table`. */
  method IntersectWithServerTable(labels: seq<Bytes32>, table: set<Bytes32>) returns (out: seq<nat>)
    ensures Ascending(out)
    ensures forall i :: i in out <==> 0 <= i < |labels| && labels[i] in table
  {
    out := [];
    for k := 0 to |labels|
      invariant Ascending(out)
      invariant forall i :: i in out <==> 0 <= i < k && labels[i] in table
    {
      if labels[k] in table {
        assert forall i :: 0 <= i < |out| ==> out[i] in out;
        out := out + [k];
      }
    }
  }

  /** The labels of the registered contacts under the master key. */
  ghost function TableKeys(suite: Suite, k: int, registered: seq<seq<Byte>>): set<Bytes32>
    requires suite.q > 0
  {
    set i | 0 <= i < |registered| :: MasterLabel(suite, k, registered[i])
  }

  /** The loop body of `simulate_server_table`: blind a contact, evaluate it under the master key, unblind. */
  method TableLabel(suite: Suite, k: int, contact: seq<Byte>, blind: int) returns (l: Result<Bytes32, DiscoveryError>)
    requires suite.Valid() && blind % suite.q != 0
    ensures l.Ok? <==> Blindable(suite, contact) && k % suite.q != 0
    ensures l.Ok? ==> l.value == MasterLabel(suite, k, contact)
  {
    if !AcceptedInput(contact) {
      return Err(InputRejected);
    }
    var request := Blind(suite, contact, blind);
    if request.Err? {
      return Err(OprfFailure(request.error));
    }
    FinalizeMaster(suite, k, contact, blind);
    var e := Evaluate(suite, request.value, k);
    if e.Err? {
      return Err(OprfFailure(e.error));
    }
    var found := Finalize(suite, blind, contact, e.value);
    if found.Err? {
      // The evaluation under a nonzero key is a proper element, so unblinding it cannot fail.
      assert false;
    }
    l := Ok(found.value);
  }

  /** One turn of the loop: the table with the next registered contact. */
  method AddToTable(suite: Suite, k: int, registered: seq<seq<Byte>>, i: nat, blind: int,
                    table: map<Bytes32, seq<Byte>>)
    returns (r: Result<map<Bytes32, seq<Byte>>, DiscoveryError>)
    requires suite.Valid() && blind % suite.q != 0 && i < |registered| && TableOf(suite, k, registered[..i], table)
    ensures r.Ok? <==> Blindable(suite, registered[i]) && k % suite.q != 0
    ensures r.Ok? ==> TableOf(suite, k, registered[..i + 1], r.value)
  {
    var found := TableLabel(suite, k, registered[i], blind);
    if found.Err? {
      return Err(found.error);
    }
    TableInsert(suite, k, registered, i, table);
    r := Ok(table[found.value := registered[i]]);
  }

  /** `simulate_server_table` with its blinding scalars `blinds`. */
  method SimulateServerTable(suite: Suite, k: int, registered: seq<seq<Byte>>, blinds: seq<int>)
    returns (r: Result<map<Bytes32, seq<Byte>>, DiscoveryError>)
    requires suite.Valid() && |blinds| == |registered|
    requires forall i :: 0 <= i < |blinds| ==> blinds[i] % suite.q != 0
    ensures r.Ok? <==>
            && (forall i :: 0 <= i < |registered| ==> Blindable(suite, registered[i]))
            && (registered == [] || k % suite.q != 0)
    ensures r.Ok? ==> TableOf(suite, k, registered, r.value)
  {
    var table: map<Bytes32, seq<Byte>> := map[];
    for i := 0 to |registered|
      invariant forall j :: 0 <= j < i ==> Blindable(suite, registered[j])
      invariant i == 0 || k % suite.q != 0
      invariant TableOf(suite, k, registered[..i], table)
    {
      var longer := AddToTable(suite, k, registered, i, blinds[i], table);
      if longer.Err? {
        return Err(longer.error);
      }
      table := longer.value;
    }
    assert registered[..|registered|] == registered;
    r := Ok(table);
  }

  /** The table maps exactly the labels of the registered contacts, each to a contact with that label. */
  ghost predicate TableOf(suite: Suite, k: int, registered: seq<seq<Byte>>, table: map<Bytes32, seq<Byte>>)
    requires suite.q > 0
  {
    && table.Keys == TableKeys(suite, k, registered)
    && forall l :: l in table ==> table[l] in registered && MasterLabel(suite, k, table[l]) == l
  }

  lemma TableInsert(suite: Suite, k: int, registered: seq<seq<Byte>>, i: nat, table: map<Bytes32, seq<Byte>>)
    requires suite.q > 0 && i < |registered| && TableOf(suite, k, registered[..i], table)
    ensures TableOf(suite, k, registered[..i + 1], table[MasterLabel(suite, k, registered[i]) := registered[i]])
  {
    var added, more := MasterLabel(suite, k, registered[i]), registered[..i + 1];
    var longer := table[added := registered[i]];
    assert longer.Keys == TableKeys(suite, k, more) by {
      TableGrows(suite, k, registered, i);
    }
    assert more == registered[..i] + [registered[i]];
    forall l | l in longer
      ensures longer[l] in more && MasterLabel(suite, k, longer[l]) == l
    {
      if l != added {
        assert l in table && longer[l] == table[l];
      }
    }
  }

  lemma TableGrows(suite: Suite, k: int, registered: seq<seq<Byte>>, i: nat)
    requires suite.q > 0 && i < |registered|
    ensures TableKeys(suite, k, registered[..i + 1]) ==
            TableKeys(suite, k, registered[..i]) + {MasterLabel(suite, k, registered[i])}
  {
    var a, b := registered[..i], registered[..i + 1];
    forall l | l in TableKeys(suite, k, b)
      ensures l in TableKeys(suite, k, a) + {MasterLabel(suite, k, registered[i])}
    {
      var j :| 0 <= j < |b| && l == MasterLabel(suite, k, b[j]);
      if j < i {
        assert a[j] == b[j];
      }
    }
    forall l | l in TableKeys(suite, k, a)
      ensures l in TableKeys(suite, k, b)
    {
      var j :| 0 <= j < |a| && l == MasterLabel(suite, k, a[j]);
      assert a[j] == b[j];
    }
    assert b[i] == registered[i];
  }

  // ----- End to end -----

  /** The first `n` servers hold the values at their indices of the sharing polynomial `cs` and answered the request. */
  ghost predicate HonestCluster(suite: Suite, cs: seq<int>, request: PsiRequest, responses: Responses, n: int)
    requires suite.q > 0 && n <= |responses|
  {
    forall j :: 0 <= j < n ==> EvaluatedBy(suite, request, Eval(cs, responses[j].0), responses[j].1)
  }

  ghost predicate DistinctServers(responses: Responses, total: int) {
    && (forall i :: 0 <= i < |responses| ==> responses[i].0 <= total)
    && (forall i, j :: 0 <= i < j < |responses| ==> responses[i].0 != responses[j].0)
  }

  /**
    When the first `threshold` responses are honest, the label at each position is the master label of the contact
    there, unless the key is zero or an element of one of the other responses does not decode.
   */
  lemma HonestLabelAt(suite: Suite, cs: seq<int>, request: PsiRequest, contact: seq<Byte>, r: int,
                      responses: Responses, config: ThresholdConfig, i: nat)
    requires suite.Valid() && ValidConfig(config) && |cs| <= config.threshold <= |responses|
    requires DistinctServers(responses, config.total)
    requires i < |request.entries| && SameLength(responses, |request.entries|)
    requires HonestCluster(suite, cs, request, responses, config.threshold)
    requires r % suite.q != 0 && Blindable(suite, contact)
    requires Blind(suite, contact, r) == Ok(request.entries[i].element)
    ensures LabelOf(suite, r, contact, PartialsAt(responses, |request.entries|, i), config) ==
            if || Eval(cs, 0) % suite.q == 0
               || !RestDecodes(suite, PartialsAt(responses, |request.entries|, i), config.threshold)
            then None
            else Some(MasterLabel(suite, Eval(cs, 0), contact))
  {
    HonestPartials(suite, cs, request, responses, config.threshold, i);
    DistinctPartials(responses, |request.entries|, i, config.total);
    HonestLabel(suite, cs, contact, r, request.entries[i].element, PartialsAt(responses, |request.entries|, i), config);
  }

  lemma DistinctPartials(responses: Responses, n: nat, i: nat, total: int)
    requires SameLength(responses, n) && i < n && DistinctServers(responses, total)
    ensures DistinctIndices(PartialsAt(responses, n, i), total)
  {
  }

  lemma HonestPartials(suite: Suite, cs: seq<int>, request: PsiRequest, responses: Responses, n: nat, i: nat)
    requires suite.q > 0 && n <= |responses| && i < |request.entries| && SameLength(responses, |request.entries|)
    requires HonestCluster(suite, cs, request, responses, n)
    ensures HonestShares(suite, cs, request.entries[i].element, PartialsAt(responses, |request.entries|, i), n)
  {
    var partials := PartialsAt(responses, |request.entries|, i);
    forall j | 0 <= j < n
      ensures Evaluate(suite, request.entries[i].element, Eval(cs, partials[j].0)) == Ok(partials[j].1)
    {
      assert EvaluatedBy(suite, request, Eval(cs, responses[j].0), responses[j].1);
    }
  }

  /** The elements of an honest cluster all decode. */
  lemma HonestElementsDecode(suite: Suite, cs: seq<int>, request: PsiRequest, responses: Responses, i: nat)
    requires suite.Valid() && i < |request.entries| && SameLength(responses, |request.entries|)
    requires HonestCluster(suite, cs, request, responses, |responses|)
    ensures RestDecodes(suite, PartialsAt(responses, |request.entries|, i), 0)
  {
    var partials := PartialsAt(responses, |request.entries|, i);
    forall j | 0 <= j < |partials|
      ensures suite.DecodeElement(partials[j].1).Some?
    {
      assert EvaluatedBy(suite, request, Eval(cs, responses[j].0), responses[j].1);
      EvaluationDecodes(suite, request.entries[i].element, Eval(cs, responses[j].0), partials[j].1);
    }
  }

  /** Labels, table and answer of a finished discovery. */
  ghost predicate Discovered(suite: Suite, k: int, contacts: seq<seq<Byte>>, registered: seq<seq<Byte>>, out: seq<nat>)
    requires suite.q > 0
  {
    && Ascending(out)
    && forall i :: i in out <==>
         0 <= i < |contacts| && MasterLabel(suite, k, contacts[i]) in TableKeys(suite, k, registered)
  }

  /** The strings hashed into the labels of a contact and of a registered user collide. */
  ghost predicate LabelCollision(suite: Suite, k: int, contact: seq<Byte>, user: seq<Byte>)
    requires suite.q > 0
  {
    && MasterPreimage(suite, k, contact) != MasterPreimage(suite, k, user)
    && suite.LabelHash(MasterPreimage(suite, k, contact)) == suite.LabelHash(MasterPreimage(suite, k, user))
  }

  /**
    Discovery answers exactly the plain intersection: every registered contact is reported, and a reported contact is
    registered unless its label preimage collides with that of some registered user.
   */
  lemma DiscoveryIsIntersection(suite: Suite, k: int, contacts: seq<seq<Byte>>, registered: seq<seq<Byte>>,
                                out: seq<nat>, i: nat)
    requires suite.q > 0 && i < |contacts| && Discovered(suite, k, contacts, registered, out)
    requires AcceptedInput(contacts[i])
    requires forall j :: 0 <= j < |registered| ==> AcceptedInput(registered[j])
    ensures contacts[i] in registered ==> i in out
    ensures i in out ==>
              || contacts[i] in registered
              || exists j :: 0 <= j < |registered| && LabelCollision(suite, k, contacts[i], registered[j])
  {
    if contacts[i] in registered {
      var j :| 0 <= j < |registered| && registered[j] == contacts[i];
      assert MasterLabel(suite, k, registered[j]) in TableKeys(suite, k, registered);
    }
    if i in out {
      var j :| 0 <= j < |registered| && MasterLabel(suite, k, contacts[i]) == MasterLabel(suite, k, registered[j]);
      if MasterPreimage(suite, k, contacts[i]) == MasterPreimage(suite, k, registered[j]) {
        PreimageShowsInput(suite, contacts[i], (k * suite.hashToGroup(contacts[i])) % suite.q,
                           registered[j], (k * suite.hashToGroup(registered[j])) % suite.q);
      } else {
        assert LabelCollision(suite, k, contacts[i], registered[j]);
      }
    }
  }

  /** Labels under one key find nothing in a table made under another, unless two strings collide. */
  lemma WrongKeyFindsNothing(suite: Suite, k: int, l: int, contact: seq<Byte>, user: seq<Byte>)
    requires suite.Valid() && k % suite.q != l % suite.q && Blindable(suite, contact) && Blindable(suite, user)
    ensures var n, m := MasterElement(suite, l, contact), MasterElement(suite, k, user);
            || MasterLabel(suite, l, contact) != MasterLabel(suite, k, user)
            || LabelHashCollision(suite, LabelPreimage(suite, contact, n), LabelPreimage(suite, user, m))
            || Sha512Collision(suite, OutputPreimage(suite, contact, n), OutputPreimage(suite, user, m))
  {
    var n, m := MasterElement(suite, l, contact), MasterElement(suite, k, user);
    if contact == user {
      KeysSeparateLabels(suite, l, k, contact);
    } else if LabelPreimage(suite, contact, n) == LabelPreimage(suite, user, m) {
      PreimageShowsInput(suite, contact, n, user, m);
    }
  }

  /** The last element of an ascending list is its greatest and occurs once. */
  lemma AscendingLast(a: seq<nat>)
    requires Ascending(a) && a != []
    ensures var n := |a| - 1;
            && Ascending(a[..n])
            && a[n] in a
            && (forall v :: v in a ==> v <= a[n])
            && (forall v :: v in a[..n] <==> v in a && v != a[n])
  {
    var n := |a| - 1;
    assert a == a[..n] + [a[n]];
    forall v | v in a[..n]
      ensures v < a[n]
    {
      var i :| 0 <= i < n && a[..n][i] == v;
      assert a[i] == v;
    }
  }

  /** Two ascending lists with the same members are the same list. */
  lemma {:induction false} AscendingUnique(a: seq<nat>, b: seq<nat>)
    requires Ascending(a) && Ascending(b) && forall i :: i in a <==> i in b
    ensures a == b
    decreases |a|
  {
    assert a != [] ==> a[0] in b;
    assert b != [] ==> b[0] in a;
    if a != [] && b != [] {
      AscendingLast(a);
      AscendingLast(b);
      AscendingUnique(a[..|a| - 1], b[..|b| - 1]);
      assert a == a[..|a| - 1] + [a[|a| - 1]] && b == b[..|b| - 1] + [b[|b| - 1]];
    }
  }

  /** The answer depends on the master key and the two lists only: not on the servers, the scalars or the salts. */
  lemma AnswerIsDetermined(suite: Suite, k: int, contacts: seq<seq<Byte>>, registered: seq<seq<Byte>>, a: seq<nat>,
                           b: seq<nat>)
    requires suite.q > 0
    requires Discovered(suite, k, contacts, registered, a) && Discovered(suite, k, contacts, registered, b)
    ensures a == b
  {
    AscendingUnique(a, b);
  }

  /** What the client draws and what the cluster is, for one discovery. */
  datatype Scenario = Scenario(
    coefficients: seq<int>,
    servers: seq<WitnessIndex>,
    config: ThresholdConfig,
    masterKey: Bytes32,
    blinds: seq<int>,
    tableBlinds: seq<int>,
    salt: Bytes32,
    nonce: Bytes32,
    encodeScalar: int -> Bytes32)
  {
    /** A sharing of degree below the threshold and at least `threshold` distinct servers. */
    ghost predicate Valid(suite: Suite, contacts: nat, registered: nat) {
      && suite.Valid()
      && ValidConfig(config)
      && |coefficients| <= config.threshold <= |servers|
      && (forall i :: 0 <= i < |servers| ==> servers[i] <= config.total)
      && (forall i, j :: 0 <= i < j < |servers| ==> servers[i] != servers[j])
      && |blinds| == contacts && |tableBlinds| == registered
      && (forall i :: 0 <= i < |blinds| ==> blinds[i] % suite.q != 0)
      && (forall i :: 0 <= i < |tableBlinds| ==> tableBlinds[i] % suite.q != 0)
    }

    function Master(): int {
      Eval(coefficients, 0)
    }
  }

  ghost predicate CanEvaluate(suite: Suite, request: PsiRequest, share: int)
    requires suite.q > 0
  {
    forall i :: 0 <= i < |request.entries| ==> Evaluate(suite, request.entries[i].element, share).Ok?
  }

  /** The server loop of a discovery: every server evaluates the same request with its Shamir share. */
  method CollectResponses(suite: Suite, s: Scenario, request: PsiRequest)
    returns (r: Result<Responses, DiscoveryError>)
    requires suite.q > 0
    ensures r.Ok? ==> |r.value| == |s.servers|
    ensures r.Ok? ==> HonestCluster(suite, s.coefficients, request, r.value, |r.value|)
    ensures r.Ok? ==> forall j :: 0 <= j < |s.servers| ==> r.value[j].0 == s.servers[j]
    ensures r.Err? ==>
              exists j :: 0 <= j < |s.servers| && !CanEvaluate(suite, request, Eval(s.coefficients, s.servers[j]))
  {
    var responses: Responses := [];
    for j := 0 to |s.servers|
      invariant |responses| == j && HonestCluster(suite, s.coefficients, request, responses, |responses|)
      invariant forall i :: 0 <= i < j ==> responses[i].0 == s.servers[i]
    {
      var share := ShamirShare(s.coefficients, s.servers[j], suite.q);
      ReducedShare(suite, Eval(s.coefficients, s.servers[j]));
      var response := PsiServerRespond(suite, request, share, s.encodeScalar(share), s.nonce);
      if response.Err? {
        return Err(response.error);
      }
      responses := responses + [(s.servers[j], response.value)];
    }
    r := Ok(responses);
  }

  /** A share evaluates alike before and after reduction modulo `q`. */
  lemma ReducedShare(suite: Suite, key: int)
    requires suite.q > 0
    ensures forall b :: Evaluate(suite, b, key % suite.q) == Evaluate(suite, b, key)
  {
    ModMod(key, suite.q);
    forall b
      ensures Evaluate(suite, b, key % suite.q) == Evaluate(suite, b, key)
    {
      var p := suite.DecodeElement(b);
      if p.Some? {
        ModMul(key % suite.q, key, p.value, suite.q);
      }
    }
  }

  /** The cluster can evaluate: neither the master key nor a responding share is zero. */
  ghost predicate WorkingKeys(suite: Suite, s: Scenario)
    requires suite.q > 0
  {
    && s.Master() % suite.q != 0
    && forall j :: 0 <= j < |s.servers| ==> Eval(s.coefficients, s.servers[j]) % suite.q != 0
  }

  ghost predicate AllBlindable(suite: Suite, inputs: seq<seq<Byte>>) {
    forall i :: 0 <= i < |inputs| ==> Blindable(suite, inputs[i])
  }

  ghost predicate MasterLabels(suite: Suite, k: int, contacts: seq<seq<Byte>>, labels: seq<Bytes32>)
    requires suite.q > 0
  {
    |labels| == |contacts| && forall i :: 0 <= i < |contacts| ==> labels[i] == MasterLabel(suite, k, contacts[i])
  }

  /** The labels that a finished query with an honest cluster returns. */
  lemma HonestLabels(suite: Suite, s: Scenario, contacts: seq<seq<Byte>>, request: PsiRequest, responses: Responses)
    requires s.Valid(suite, |contacts|, |s.tableBlinds|) && AllBlindable(suite, contacts)
    requires |request.entries| == |contacts| && SameLength(responses, |contacts|)
    requires forall i :: 0 <= i < |contacts| ==>
               Ok(request.entries[i].element) == Blind(suite, contacts[i], s.blinds[i])
    requires |responses| == |s.servers| && HonestCluster(suite, s.coefficients, request, responses, |responses|)
    requires forall j :: 0 <= j < |s.servers| ==> responses[j].0 == s.servers[j]
    ensures forall i :: 0 <= i < |contacts| ==>
              LabelOf(suite, s.blinds[i], contacts[i], PartialsAt(responses, |contacts|, i), s.config) ==
              if s.Master() % suite.q == 0 then None else Some(MasterLabel(suite, s.Master(), contacts[i]))
  {
    forall i | 0 <= i < |contacts|
      ensures LabelOf(suite, s.blinds[i], contacts[i], PartialsAt(responses, |contacts|, i), s.config) ==
              if s.Master() % suite.q == 0 then None else Some(MasterLabel(suite, s.Master(), contacts[i]))
    {
      HonestElementsDecode(suite, s.coefficients, request, responses, i);
      HonestLabelAt(suite, s.coefficients, request, contacts[i], s.blinds[i], responses, s.config, i);
    }
  }

  /** The second half of a discovery with an honest cluster: responses and labels. */
  method QueryCluster(suite: Suite, s: Scenario, contacts: seq<seq<Byte>>, request: PsiRequest)
    returns (r: Result<seq<Bytes32>, DiscoveryError>)
    requires s.Valid(suite, |contacts|, |s.tableBlinds|) && AllBlindable(suite, contacts) && contacts != []
    requires |request.entries| == |contacts|
    requires forall i :: 0 <= i < |contacts| ==>
               Ok(request.entries[i].element) == Blind(suite, contacts[i], s.blinds[i])
    ensures r.Ok? ==> MasterLabels(suite, s.Master(), contacts, r.value)
    ensures r.Ok? <==> WorkingKeys(suite, s)
  {
    RequestDecodes(suite, contacts, s.blinds, request);
    var responses := CollectResponses(suite, s, request);
    if responses.Err? {
      ghost var j :| 0 <= j < |s.servers| && !CanEvaluate(suite, request, Eval(s.coefficients, s.servers[j]));
      assert Eval(s.coefficients, s.servers[j]) % suite.q == 0;
      return Err(responses.error);
    }
    SharesNonzero(suite, s, request, responses.value);
    HonestLabels(suite, s, contacts, request, responses.value);
    r := FinalizePsiQuery(suite, PsiQueryState(s.blinds, contacts), responses.value, s.config);
    ghost var first := LabelOf(suite, s.blinds[0], contacts[0], PartialsAt(responses.value, |contacts|, 0), s.config);
    assert r.Ok? ==> first.Some?;
  }

  /** The client's side of a discovery with an honest cluster: request, responses, labels. */
  method FetchLabels(suite: Suite, anonIds: AnonIds, s: Scenario, contacts: seq<seq<Byte>>)
    returns (r: Result<seq<Bytes32>, DiscoveryError>)
    requires s.Valid(suite, |contacts|, |s.tableBlinds|)
    ensures r.Ok? ==> MasterLabels(suite, s.Master(), contacts, r.value)
    ensures r.Ok? <==> 1 <= |contacts| <= MAX_PSI_BATCH && AllBlindable(suite, contacts) && WorkingKeys(suite, s)
  {
    var prepared := PreparePsiQuery(suite, anonIds, s.masterKey, contacts, 1, s.blinds, s.salt, s.nonce);
    if prepared.Err? {
      return Err(prepared.error);
    }
    r := QueryCluster(suite, s, contacts, prepared.value.0);
  }

  /** A whole discovery run with an honest cluster: table, labels, intersection. */
  method Discover(suite: Suite, anonIds: AnonIds, s: Scenario, contacts: seq<seq<Byte>>, registered: seq<seq<Byte>>)
    returns (r: Result<seq<nat>, DiscoveryError>)
    requires s.Valid(suite, |contacts|, |registered|)
    ensures r.Ok? ==> Discovered(suite, s.Master(), contacts, registered, r.value)
    ensures r.Ok? <==>
            && 1 <= |contacts| <= MAX_PSI_BATCH
            && AllBlindable(suite, contacts)
            && AllBlindable(suite, registered)
            && WorkingKeys(suite, s)
  {
    var table := SimulateServerTable(suite, s.Master(), registered, s.tableBlinds);
    if table.Err? {
      return Err(table.error);
    }
    var labels := FetchLabels(suite, anonIds, s, contacts);
    if labels.Err? {
      return Err(labels.error);
    }
    var out := IntersectWithServerTable(labels.value, table.value.Keys);
    r := Ok(out);
  }

  /** Every element of a prepared request decodes. */
  lemma RequestDecodes(suite: Suite, contacts: seq<seq<Byte>>, blinds: seq<int>, request: PsiRequest)
    requires suite.Valid() && |contacts| == |blinds| == |request.entries|
    requires forall i :: 0 <= i < |contacts| ==> blinds[i] % suite.q != 0 && Blindable(suite, contacts[i])
    requires forall i :: 0 <= i < |contacts| ==>
               Ok(request.entries[i].element) == Blind(suite, contacts[i], blinds[i])
    ensures forall i :: 0 <= i < |contacts| ==> suite.DecodeElement(request.entries[i].element).Some?
  {
    forall i | 0 <= i < |contacts|
      ensures suite.DecodeElement(request.entries[i].element).Some?
    {
      FinalizeMaster(suite, 1, contacts[i], blinds[i]);
    }
  }

  /** Servers that answered hold nonzero shares. */
  lemma SharesNonzero(suite: Suite, s: Scenario, request: PsiRequest, responses: Responses)
    requires suite.q > 0 && request.entries != []
    requires |responses| == |s.servers| && HonestCluster(suite, s.coefficients, request, responses, |responses|)
    requires forall j :: 0 <= j < |s.servers| ==> responses[j].0 == s.servers[j]
    ensures forall j :: 0 <= j < |s.servers| ==> Eval(s.coefficients, s.servers[j]) % suite.q != 0
    ensures SameLength(responses, |request.entries|)
  {
    forall j | 0 <= j < |s.servers|
      ensures Eval(s.coefficients, s.servers[j]) % suite.q != 0
    {
      assert EvaluatedBy(suite, request, Eval(s.coefficients, responses[j].0), responses[j].1);
      assert Evaluate(suite, request.entries[0].element, Eval(s.coefficients, responses[j].0)) ==
             Ok(responses[j].1.entries[0].element);
    }
    forall j | 0 <= j < |responses|
      ensures |responses[j].1.entries| == |request.entries|
    {
      assert EvaluatedBy(suite, request, Eval(s.coefficients, responses[j].0), responses[j].1);
    }
  }
}
