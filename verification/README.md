# Umbrella: private discovery, key transparency and client identity, verified

This project models the stateful and algebraic core of the Umbrella messenger in Dafny 4.11 and proves what that core
promises for all inputs and all runs. `dafny verify dfyconfig.toml` checks everything.

**Private discovery.** `Oprf` follows the threshold OPRF of `umbrella-oprf` (base mode of section 3.3.1 of RFC 9497):
blinding, evaluation with Shamir shares, Lagrange combination at zero, unblinding, labels. A group element is named by
its discrete logarithm over a prime `q > 5`; the group encoding, hash-to-group and SHA-2 are abstract. `Field` and
`Lagrange` supply inverses modulo a prime (extended Euclid) and interpolation for any number of points. `Labels` is the
finalizing half that both protocols share, `Transcript` their response tags. `Psi` is the
batch protocol of `psi.rs` and ends in `Psi.Discover`: a whole discovery run with honest servers. `Merkle` is the tree
of sections 2.1 and 2.1.1 of RFC 6962 with the bottom-up verifier of `merkle.rs`; `KtBind` binds a handle and key to a
pinned tree, and `Username` composes OPRF, encrypted record and tree check.

**Hashes.** No hash function is assumed injective. Where a statement rests on collision resistance it says "or this
concrete pair of strings collides", and a function computes the pair (`Merkle.Departure`, `KtBind.ProofDeparture`,
`Derive.Meeting`, `Derive.SeedMeeting`) or, in `Psi.DiscoveryIsIntersection`, the pair is named by the contact and a
registered user.

**Limits.** `RateLimit` proves the two-queue budget equal to a limiter that remembers every accepted call when the clock
does not step back, and derives the exactness of the retry hints. `RateBound` proves the sliding-window bounds for
exactly the clocks that keep them, stepping back or not. `ReplayGuard` proves the set-and-queue index equal to the last
accepted nonces.

**Wire formats.** `Wire` has the four hand-written printers and cursor parsers of `wire.rs`. Each decoder accepts
exactly the serialisations of in-range messages and returns the one message that serialises to them; each format is
prefix-free.

**Identity rotation.** `RotationRecord` is the signed record and its 235-byte log entry. `Rotation` has the four slots
of `ClientCore` and `rotate_identity_full`, for an arbitrary hardware callback. `RotationMirror` replays the published
log the way `apply_identity_rotation` does. `RotationSteps` is the same rotation one lock acquisition at a time with
readers in between; `RotationOverlap` and `RotationSurfaces` are any number of rotations at once. `Registry` does the same for the group and
ratchet maps.

**Smaller machines.** `Lifecycle` (session wipe), `Witness` (quorum and split views), `Attestation` (device
attestations), `Derive` (SLIP-0010).

Where a comment and the code disagree the model follows the code. `finalize_username_query` speaks of all servers
returning one record (crates/umbrella-discovery/src/username_lookup.rs:279-298) but compares nothing and opens the first
response only; `rotate_identity_full` defends against a key that fails to decode after publication
(crates/umbrella-client/src/identity.rs:393-404), which the verification of the record before publication excludes.

Promises that hold under a condition come with the exact one:

- the sliding-window bounds hold on a clock if and only if it never returns near a reading that it has shown to be
  expired (`RateBound.BoundIffNeverReturns`);
- once the rotations under way have published, the log is a chain if and only if no two of them were between
  verifying their record and swapping `mls_keystore` together
  (`RotationOverlap.ChainIffNoOverlap`); honest callers can get there (`RotationOverlap.HonestCallsForkLog`);
- group and ratchet map keep agreeing on a chat if and only if no registration and unregistration of it are between
  their locks together (`Registry.AgreeIffNoClash`); overlapping registrations agree but can mix group and ratchet
  state (`Registry.RegistrationsSerializeIff`);
- a mirror accepts a published chain if and only if all records carry one recovery proof and the epochs advance with
  quorum (`RotationMirror.MirrorAcceptsIff`); the publishing side never compares proofs
  (`RotationMirror.DifferentProofsRefused`);
- a surface agrees with `mls_keystore` if and only if the last rotations to swap them published one key
  (`RotationSurfaces.SurfacesShowLastSwaps`), which overtaking breaks
  (`RotationSurfaces.OvertakenRotationLeavesOldKey`);
- a discovery with honest servers succeeds if and only if, besides the input limits, no key involved is zero, and a
  lookup whose first `threshold` respondents are honest if and only if the master key is not zero and the other
  elements decode (`Psi.Discover`, `Username.HonestLookupYields`).

## Model

| member | source | states |
|---|---|---|
| Oprf.LabelPreimageInjective | crates/umbrella-oprf/src/primitives.rs:253-274 | what is hashed into a label determines the input and, unless two exhibited strings collide under SHA-512, the unblinded element |
| Oprf.LabelSpelledOut | crates/umbrella-oprf/src/primitives.rs:253-274 | a label is the first half of SHA-512 over the domain, the framed input and the RFC 9497 output, itself SHA-512 over framed input, element and "Finalize" |
| Oprf.ClientOutcome | crates/umbrella-oprf/src/primitives.rs:215-274 | blinding fails exactly for an input that hashes to the identity, finalizing exactly for an element that does not decode or is the identity, each with its error |
| Oprf.EvaluateOutcome | crates/umbrella-oprf/src/primitives.rs:291-303 | a server answers key times element, and refuses exactly undecodable or identity elements and the zero key, each with its error |
| Oprf.FinalizeSeparatesKeys | crates/umbrella-oprf/src/primitives.rs:253-274 | for one input and keys different modulo q, what finalize returns differs whatever the blinding, or two exhibited strings collide |
| Oprf.LagrangeAtZero | crates/umbrella-oprf/src/threshold.rs:222-235 | the loop over the other points computes, modulo q, the Lagrange coefficient of its point |
| Oprf.CheckIndices | crates/umbrella-oprf/src/threshold.rs:163-175 | no error exactly when all witness indices are known and pairwise distinct; otherwise the error names the first faulty index and its fault |
| Oprf.CombinePoints | crates/umbrella-oprf/src/threshold.rs:202-207 | the accumulation loop computes the Lagrange combination of the points |
| Oprf.ThresholdCombine | crates/umbrella-oprf/src/threshold.rs:151-211 | succeeds exactly on a sound configuration and enough decodable shares with known distinct indices, with the combination of the first `threshold` of them; each failure with its error, in the order of the checks |
| Oprf.ShamirShare | crates/umbrella-oprf/src/threshold.rs:253-298 | the power-accumulating loop computes the value of the sharing polynomial at the server's index |
| Oprf.PowerSumIsEval | crates/umbrella-oprf/src/threshold.rs:253-298 | summing coefficients times growing powers is Horner evaluation |
| Lagrange.WeightsSumToOne | crates/umbrella-oprf/src/threshold.rs:222-235 | the coefficients at zero of any pairwise different points add up to one modulo q |
| Lagrange.Interpolation | crates/umbrella-oprf/src/threshold.rs:202-235 | for any number of pairwise different points, the weighted values of a polynomial with no more coefficients than points add up to its constant term |
| Oprf.CombineShares | crates/umbrella-oprf/src/threshold.rs:202-207 | shares of one polynomial times a base combine to its constant term times the base, whichever points were used |
| Oprf.UnblindExponent | crates/umbrella-oprf/src/primitives.rs:253-274 | blinding by r, evaluating and multiplying by the inverse of r leaves the unblinded evaluation |
| Oprf.EvaluationDecodes | crates/umbrella-oprf/src/primitives.rs:291-303 | a successful evaluation is an element that decodes |
| Oprf.CombineHonest | crates/umbrella-oprf/src/threshold.rs:151-211 | when the first `threshold` shares are honest, whichever servers they came from, the combination is the evaluation under the master key, whatever the other shares are |
| Oprf.FinalizeMaster | crates/umbrella-oprf/src/primitives.rs:215-274 | unblinding an evaluation under the master key gives the master label, for every blinding scalar |
| Oprf.ThresholdOprfCorrect | crates/umbrella-oprf/src/threshold.rs:151-211 | blind, evaluate, combine and finalize gives the label under the shared key when the first `threshold` shares are honest, and an error exactly for the zero key |
| Labels.DecodeShares | crates/umbrella-discovery/src/psi.rs:292-299 | fails exactly when some received element does not decode; otherwise all of them in server order |
| Labels.FinalizeLabel | crates/umbrella-discovery/src/psi.rs:291-305 | the label exactly when the received elements decode, combine and unblind to one and the input is in range; which kind of error otherwise |
| Labels.HonestLabel | crates/umbrella-discovery/src/username_lookup.rs:283-292 | when the first `threshold` evaluations are honest, they lead to the master label of the input if and only if the key is not zero and the other elements decode |
| Transcript.PsiTagInputInjective | crates/umbrella-discovery/src/psi.rs:233-255 | what is hashed into a batch response's tag determines both nonces, every entry and the seed |
| Transcript.UsernameTagInputInjective | crates/umbrella-discovery/src/username_lookup.rs:214-235 | what is hashed into a lookup response's tag determines both nonces, the id, the evaluation, the record and the seed |
| Transcript.PsiTagsDiffer | crates/umbrella-discovery/src/psi.rs:233-255 | tags of different batch transcripts differ, or the two hashed strings collide |
| Transcript.UsernameTagsDiffer | crates/umbrella-discovery/src/username_lookup.rs:214-235 | tags of different lookup transcripts differ, or the two hashed strings collide |
| Psi.PreparePsiQuery | crates/umbrella-discovery/src/psi.rs:117-179 | succeeds exactly on batches of 1 to 1024 blindable contacts; every entry is the blinding of its contact with its scalar; the batch error exactly off that range |
| Psi.PsiServerRespond | crates/umbrella-discovery/src/psi.rs:193-221 | succeeds exactly when every entry can be evaluated; the response holds the evaluation of each entry at its own position and the tag over its transcript |
| Psi.FinalizePsiQuery | crates/umbrella-discovery/src/psi.rs:270-307 | succeeds exactly on enough responses of the right length with a label at every position, and returns those labels in order; the insufficiency error exactly below the threshold |
| Psi.IntersectWithServerTable | crates/umbrella-discovery/src/psi.rs:321-332 | the ascending list of exactly the positions whose label is in the table |
| Psi.TableLabel | crates/umbrella-discovery/src/psi.rs:350-356 | the master label of a registered contact, for every blinding scalar, exactly when the contact can be blinded and the key is not zero |
| Psi.SimulateServerTable | crates/umbrella-discovery/src/psi.rs:344-359 | the table's keys are exactly the master labels of the registered contacts, whatever the blinding; each key maps to a contact with that label |
| Psi.HonestLabelAt | crates/umbrella-discovery/src/psi.rs:291-305 | when the first `threshold` responses are honest, a position finalizes to the master label of its contact if and only if the key is not zero and the other responses' elements there decode |
| Psi.CollectResponses | crates/umbrella-discovery/examples/psi_realistic_scenario.rs:23-119 | every server evaluates the same request with its Shamir share of the master key |
| Psi.QueryCluster | crates/umbrella-discovery/examples/psi_realistic_scenario.rs:23-119 | an honest cluster yields master labels, and succeeds exactly when neither the master key nor a responding share is zero |
| Psi.FetchLabels | crates/umbrella-discovery/examples/psi_realistic_scenario.rs:23-119 | a prepared and answered query yields exactly the master labels of the contacts |
| Psi.Discover | crates/umbrella-discovery/examples/psi_realistic_scenario.rs:23-119 | for every batch, registered list, sharing, and set of threshold or more distinct honest servers: succeeds under exactly the listed conditions, and returns in ascending order the contacts whose master label is registered |
| Psi.DiscoveryIsIntersection | crates/umbrella-discovery/src/psi.rs:270-359 | every registered contact is found, and every found contact is registered or two exhibited strings collide |
| Psi.WrongKeyFindsNothing | crates/umbrella-discovery/src/psi.rs:321-359 | labels under one key find nothing in a table made under another, or two exhibited strings collide |
| Psi.AnswerIsDetermined | crates/umbrella-discovery/src/psi.rs:270-332 | two discoveries over the same key and lists return the same list, whatever servers, scalars and salts were used |
| Merkle.AuditPathLength | crates/umbrella-kt/src/merkle.rs:231-243 | the loop counts exactly the turns between leaf and root |
| Merkle.TakeTurn | crates/umbrella-kt/src/merkle.rs:197-214 | one round of the verifier, inner skip loop included, takes the first remaining turn with its sibling and leaves the other turns |
| Merkle.ClimbPath | crates/umbrella-kt/src/merkle.rs:194-221 | the loop ends at the root level with the hash climbed along the turns |
| Merkle.VerifyInclusion | crates/umbrella-kt/src/merkle.rs:167-227 | accepts exactly when index, length and climbed root agree; each error exactly under its condition |
| Merkle.TurnsSplit | crates/umbrella-kt/src/merkle.rs:106-227 | the verifier's bottom-up turns split as the tree does at the largest power of two below its size |
| Merkle.TreeTurnsAreTurns | crates/umbrella-kt/src/merkle.rs:143-227 | for every index and size the turns read off the recursive tree are those the bit-shifting verifier takes |
| Merkle.AuditPathVerifies | crates/umbrella-kt/src/merkle.rs:126-227 | every honest audit path of every tree passes the inclusion check |
| Merkle.ClimbSound | crates/umbrella-kt/src/merkle.rs:167-227 | a climb along any turns and siblings that ends at a tree's root started at one of its leaves, or the two exhibited strings collide |
| Merkle.IncludedSound | crates/umbrella-kt/src/merkle.rs:167-227 | whatever passes the inclusion check for any claimed index and size is a leaf, or a collision is exhibited |
| KtBind.PayloadInjective | crates/umbrella-discovery/src/kt_bind.rs:62-78 | a leaf payload determines kind, handle, key and epoch, even for handles too long for the 16-bit length field |
| KtBind.PayloadLayout | crates/umbrella-discovery/src/kt_bind.rs:62-78 | where domain, kind, length, handle, key and epoch stand in a leaf |
| KtBind.VerifyDiscoveryBind | crates/umbrella-discovery/src/kt_bind.rs:118-211 | returns the one key the proof binds, exactly when it binds one; fork, payload and shape errors exactly under their conditions |
| KtBind.BoundKeyIsLogged | crates/umbrella-discovery/src/kt_bind.rs:118-211 | an accepted key's payload is a leaf of the pinned tree for any claimed size and index, or a collision is exhibited |
| KtBind.BoundKeyIsUnique | crates/umbrella-discovery/src/kt_bind.rs:118-211 | with one leaf per handle and epoch no two different keys are accepted, or a collision is exhibited |
| KtBind.HonestProofBinds | crates/umbrella-discovery/src/kt_bind.rs:118-211 | an honest log's proof is accepted with the key its leaf carries |
| Username.FinalizeUsernameQuery | crates/umbrella-discovery/src/username_lookup.rs:266-343 | returns a key exactly when the shares lead to a label L, the first response's record opens under HKDF(L, framed handle) with the client nonce and its id as associated data to that key and the proof's root, and the proof binds the key; which error otherwise |
| Username.LookupIsBound | crates/umbrella-discovery/src/username_lookup.rs:266-343 | for arbitrary server responses a returned key is bound to the queried handle and epoch in the pinned tree, or a collision is exhibited |
| Username.PreparedQuery | crates/umbrella-discovery/src/username_lookup.rs:100-131 | a query is prepared exactly for witness 1 to 5 and blindable handles of 1 to 512 bytes, with every field of request and state; which error otherwise |
| Username.RecordKeysDiffer | crates/umbrella-discovery/src/username_lookup.rs:239-252 | records of different labels or handles have different keys, or two exhibited HKDF inputs collide |
| Username.ServerIsHonest | crates/umbrella-discovery/src/username_lookup.rs:148-205 | a server answers exactly when it can evaluate, with the evaluation, a record of 92 bytes sealed for this request, its nonce and the tag over the transcript |
| Username.HonestRecordOpens | crates/umbrella-discovery/src/username_lookup.rs:148-252 | a record sealed under HKDF of the label for the handle opens on the client to the registered key and root |
| Username.HonestLookupYields | crates/umbrella-discovery/src/username_lookup.rs:100-343 | when the first `threshold` respondents hold their shares and serve a record sealed under HKDF of the master label, a prepared lookup returns exactly the registered key if and only if the master key is not zero and the other elements decode, and no key at all otherwise |
| RateLimit.ClientBudgetState.WithLimits | crates/umbrella-discovery/src/rate_limit.rs:126-134 | a new budget has empty windows |
| RateLimit.ClientBudgetState.CheckAndRegister | crates/umbrella-discovery/src/rate_limit.rs:140-183 | verdict and whole new state as a function of the old one, with the queues within the limits; no subtraction underflows and no length cast truncates |
| RateLimit.PrunedQueues | crates/umbrella-discovery/src/rate_limit.rs:140-183 | with a non-decreasing clock the pruned queues are the accepted readings inside the windows |
| RateLimit.QueuesAreWindows | crates/umbrella-discovery/src/rate_limit.rs:140-183 | after every call of such a run the queues are exactly the accepted readings younger than an hour and a day |
| RateLimit.RefinesIdealLimiter | crates/umbrella-discovery/src/rate_limit.rs:140-183 | a call is admitted exactly when a limiter that remembers the whole history admits it |
| RateBound.QueueIsSuffix | crates/umbrella-discovery/src/rate_limit.rs:140-183 | on any clock a queue is the accepted history without some first readings, all of which the clock had shown to be expired |
| RateBound.SlidingWindowBound | crates/umbrella-discovery/src/rate_limit.rs:140-183 | on every clock that never returns near a reading it has shown to be expired, a run accepts at most per_hour calls in any 3600 s interval, and likewise per_day in any 86400 s interval |
| RateBound.SortedNeverReturns | crates/umbrella-discovery/src/rate_limit.rs:66-72 | a clock that never steps back is such a clock |
| RateBound.ReturnBreaksBound | crates/umbrella-discovery/src/rate_limit.rs:140-183 | for every reading, later expiry and return near it, calls at these readings put three accepted calls into one window of limit two, for either window |
| RateBound.BoundIffNeverReturns | crates/umbrella-discovery/src/rate_limit.rs:140-183 | a clock keeps a window's bound for all limits and all calls made along it if and only if it never returns |
| RateLimit.DailyHintIsExact | crates/umbrella-discovery/src/rate_limit.rs:170-177 | an undisturbed retry is admitted exactly from now plus the daily hint on |
| RateLimit.HourlyHintSuffices | crates/umbrella-discovery/src/rate_limit.rs:157-177 | a retry at or after the hourly hint passes the hourly check and can fail only on the day cap |
| RateLimit.BackoffDoubles | crates/umbrella-discovery/src/rate_limit.rs:158-160 | the backoff starts at 5 seconds, doubles up to eight times and then stays at 1280 |
| RateLimit.HintOfKthRefusal | crates/umbrella-discovery/src/rate_limit.rs:157-168 | on any clock the k-th hourly refusal since the last admission, counted from the verdicts of the run, hints the later of the k-th backoff and the moment the oldest remembered reading leaves the hour |
| RateLimit.OldestRemembered | crates/umbrella-discovery/src/rate_limit.rs:143-149 | when the clock does not step back, what is remembered are the accepted readings inside the hour |
| RateLimit.HintBounds | crates/umbrella-discovery/src/rate_limit.rs:157-177 | with a non-decreasing clock hourly hints lie in 10 to 3600 and daily hints in 1 to 86400 |
| RateLimit.HintsBoundedIff | crates/umbrella-discovery/src/rate_limit.rs:157-177 | on any clock hourly hints are at least 10 and daily hints at least 1, and a hint exceeds its window exactly when the oldest remembered reading lies in the future |
| ReplayGuard.NonceReplayGuard.WithCapacity | crates/umbrella-discovery/src/rate_limit.rs:215-221 | a new guard has accepted nothing |
| ReplayGuard.NonceReplayGuard.Register | crates/umbrella-discovery/src/rate_limit.rs:227-239 | refuses exactly the nonces among the last max(cap, 1) accepted ones, otherwise appends; keeps queue and set equal to that window |
| ReplayGuard.NonceReplayGuard.CurrentSize | crates/umbrella-discovery/src/rate_limit.rs:243-245 | the number of remembered nonces |
| ReplayGuard.ReplayFreeGrows | crates/umbrella-discovery/src/rate_limit.rs:227-239 | equal accepted nonces always have at least max(cap, 1) other accepted nonces between them |
| ReplayGuard.WindowDistinct | crates/umbrella-discovery/src/rate_limit.rs:227-239 | inside the window no nonce occurs twice, so evicting one from the set is safe |
| Wire.EncodePsiRequest | crates/umbrella-discovery/src/wire.rs:108-122 | the appending loop produces the serialisation |
| Wire.PsiRequestLayout | crates/umbrella-discovery/src/wire.rs:108-122 | where version, witness, count, each entry's id and element, and the nonce stand |
| Wire.DecodePsiRequest | crates/umbrella-discovery/src/wire.rs:129-174 | accepts exactly the serialisations of in-range requests, returning the one request that serialises to them; no read out of bounds on any input |
| Wire.PsiRequestPrefixFree | crates/umbrella-discovery/src/wire.rs:108-174 | no serialised in-range request is a prefix of another one |
| Wire.EncodePsiResponse | crates/umbrella-discovery/src/wire.rs:214-230 | the appending loop produces the serialisation |
| Wire.PsiResponseLayout | crates/umbrella-discovery/src/wire.rs:214-230 | where version, count, each entry's id and element, nonce and tag stand |
| Wire.DecodePsiResponse | crates/umbrella-discovery/src/wire.rs:237-287 | accepts exactly the serialisations of in-range responses, returning the one response that serialises to them |
| Wire.PsiResponsePrefixFree | crates/umbrella-discovery/src/wire.rs:214-287 | no serialised in-range response is a prefix of another one |
| Wire.EncodeUsernameRequest | crates/umbrella-discovery/src/wire.rs:309-318 | produces the serialisation |
| Wire.UsernameRequestLayout | crates/umbrella-discovery/src/wire.rs:309-318 | where version, witness, id, blinded element and nonce stand |
| Wire.DecodeUsernameRequest | crates/umbrella-discovery/src/wire.rs:324-351 | accepts exactly the serialisations of in-range requests, returning the one request that serialises to them |
| Wire.UsernameRequestPrefixFree | crates/umbrella-discovery/src/wire.rs:309-351 | no serialised in-range request is a prefix of another one |
| Wire.EncodeUsernameResponse | crates/umbrella-discovery/src/wire.rs:420-439 | the appending loop produces the serialisation |
| Wire.UsernameResponseLayout | crates/umbrella-discovery/src/wire.rs:420-439 | where version, id, evaluation, record, proof, nonce and tag stand |
| Wire.ProofLayout | crates/umbrella-discovery/src/wire.rs:420-439 | where root, tree size, leaf index, payload and hashes of a proof stand |
| Wire.ReadProof | crates/umbrella-discovery/src/wire.rs:486-525 | the inclusion proof at the cursor and the position after it, or an error exactly when no in-range proof starts there |
| Wire.DecodeUsernameResponse | crates/umbrella-discovery/src/wire.rs:446-554 | accepts exactly the serialisations of in-range responses (record at most 256, payload at most 65535, siblings at most 64), returning the one response that serialises to them; no read out of bounds on any input |
| Wire.UsernameResponsePrefixFree | crates/umbrella-discovery/src/wire.rs:420-554 | no serialised in-range response is a prefix of another one |
| RotationRecord.SigningInputInjective | crates/umbrella-backup/src/cloud_wrap/identity_rotation.rs:212-236 | the signing input determines every field but the signatures |
| RotationRecord.SigningInputLayout | crates/umbrella-backup/src/cloud_wrap/identity_rotation.rs:212-236 | where the fields stand in what both keys sign |
| RotationRecord.VerifyOutcome | crates/umbrella-backup/src/cloud_wrap/identity_rotation.rs:425-443 | a record verifies exactly when both keys decode and both signed its input |
| RotationRecord.EncodeRecord | crates/umbrella-backup/src/cloud_wrap/identity_rotation.rs:334-345 | the array filled field by field is the record's serialisation |
| RotationRecord.EncodeEntry | crates/umbrella-kt/src/codec.rs:296-307 | the 235-byte log entry of a record |
| RotationRecord.DecodeEncoded | crates/umbrella-kt/src/codec.rs:296-352 | an encoded record decodes, to itself, exactly when its version is 1 and its keys differ |
| RotationRecord.EncodeDecoded | crates/umbrella-kt/src/codec.rs:329-352 | every entry that decodes re-encodes to the same bytes |
| RotationRecord.DecodeErrors | crates/umbrella-kt/src/codec.rs:329-352 | every rejected entry with its error |
| Rotation.ClientCore.SwapMlsKeystore | crates/umbrella-client/src/core.rs:1328-1334 | replaces that slot and no other |
| Rotation.ClientCore.SwapKeystore | crates/umbrella-client/src/core.rs:1191-1194 | replaces that slot and no other |
| Rotation.ClientCore.SwapHwIdentity | crates/umbrella-client/src/core.rs:1038-1045 | replaces handle and key together and no other slot |
| Rotation.ClientCore.RotateIdentityPublish | crates/umbrella-client/src/identity.rs:139-191 | appends one entry that verifies, decodes and starts from the current MLS key, or refuses with its reason and changes nothing |
| Rotation.ClientCore.RotateIdentityFull | crates/umbrella-client/src/identity.rs:302-447 | on Ok log and all three surfaces carry the new identity; on every error nothing changed; the post-publish construction error never happens |
| Rotation.RefusalChangesNothing | crates/umbrella-client/src/identity.rs:302-447 | every refusal leaves log and surfaces as they were, for an arbitrary callback |
| Rotation.RotationSucceedsIffHonest | crates/umbrella-client/src/identity.rs:302-447 | a rotation succeeds if and only if the callback answers this attempt honestly: its handle holds the current key, and both signatures cover what its arguments describe |
| Rotation.ChainGrows | crates/umbrella-client/src/identity.rs:139-191 | one more verified record from the current key extends the chain and leaves earlier generations alone |
| Rotation.SerialRotationsFormChain | crates/umbrella-client/src/identity.rs:302-447 | over any list of attempts with any callbacks the log only grows and stays a chain: each record verifies, changes the key, starts at the previous new key, and the last new key is that of every surface |
| RotationMirror.MirrorStep | crates/umbrella-kt/src/authorization_entries.rs:798-856 | a mirror in step with a log accepts the next entry exactly when its epoch has quorum and does not regress, it links to the current key, and its recovery proof is the stored one |
| RotationMirror.RefusalReasons | crates/umbrella-kt/src/authorization_entries.rs:798-856 | every refusal with its reason, in the order of the checks |
| RotationMirror.MirrorAcceptsIff | crates/umbrella-kt/src/authorization_entries.rs:798-856 | a mirror accepts a published log exactly when the log is a chain, from the mirror's own key if it has one, all records carry one recovery proof, and the epochs have quorum and never regress; it then holds the current key |
| RotationMirror.DifferentProofsRefused | crates/umbrella-client/src/identity.rs:139-191 | two successful rotations with different recovery proofs leave a chain that every mirror refuses, whatever quorum and epochs |
| RotationSteps.StepsRefineRotateFull | crates/umbrella-client/src/identity.rs:302-447 | the lock-by-lock steps taken together do what the whole call does |
| RotationSteps.StepKeepsInvariant | crates/umbrella-client/src/identity.rs:366-437 | every step of rotation or reader keeps chain, order and generations |
| RotationSteps.SurfacesStayOrdered | crates/umbrella-client/src/identity.rs:366-437 | in every interleaving of readers with one rotation at a time the log is at least as new as mls_keystore, that as keystore, that as hw_identity_state, all within one rotation; all agree when no rotation is in flight |
| RotationSteps.ReaderSeesForwardOrder | crates/umbrella-client/src/core.rs:969-1334 | a reader taking hw, keystore, mls and log in that order at any moments sees keys of non-decreasing generations |
| RotationOverlap.PendingApartKeepsChain | crates/umbrella-client/src/identity.rs:366-437 | in every interleaving of any number of rotations, as long as no two are between verifying their record and swapping mls_keystore together, the log is a chain and ends in the MLS key whenever none is |
| RotationOverlap.ChainIffNoOverlap | crates/umbrella-client/src/identity.rs:139-437 | once the rotations pending at a moment have published, the log is a chain if and only if no two were pending together at that moment |
| RotationOverlap.HonestCallsForkLog | crates/umbrella-client/src/identity.rs:302-447 | two calls that their callbacks answer honestly reach such an overlap, and the log they leave is no chain and no mirror accepts it |
| RotationSurfaces.SurfacesShowLastSwaps | crates/umbrella-client/src/core.rs:1038-1334 | in every interleaving of any number of rotations each surface shows the key published by the rotation that swapped it last, so it agrees with mls_keystore exactly when that is the key of the last rotation to swap mls_keystore |
| RotationSurfaces.TurnsKeepSurfacesCoherent | crates/umbrella-client/src/identity.rs:366-437 | as long as no two rotations are between verifying and their last swap together, log and all surfaces agree whenever none is |
| RotationSurfaces.OvertakenRotationLeavesOldKey | crates/umbrella-client/src/identity.rs:366-437 | an honest rotation that runs between the mls_keystore and the keystore swap of another leaves a chain ending in the MLS key, and keystore and hw_identity_state on the older key |
| Registry.ChatRegistry.RegisterGroup | crates/umbrella-client/src/core.rs:1360-1366 | both maps get the chat |
| Registry.ChatRegistry.UnregisterGroup | crates/umbrella-client/src/core.rs:1380-1386 | both maps lose the chat and the removed group is returned |
| Registry.ChatRegistry.GetRatchetState | crates/umbrella-client/src/core.rs:1397-1402 | the chat's ratchet state, present exactly when the chat has a group while the maps agree |
| Registry.CallsAreSerializable | crates/umbrella-client/src/core.rs:1360-1402 | in every interleaving of lock steps in which no two calls on one chat are between their locks together, calls answer and end like the completed calls run one after another; the maps then have the same keys |
| Registry.UnregistrationAnswersLatest | crates/umbrella-client/src/core.rs:1380-1386 | in every such interleaving an unregistration answers the group of the latest registration of its chat not unregistered since, and none if there is none |
| Registry.RatchetImpliesGroup | crates/umbrella-client/src/core.rs:1360-1402 | in every interleaving of any number of calls, until a registration and an unregistration of the chat are half done together, a chat with ratchet state has a group, and the maps agree on it whenever no call on it is half done |
| Registry.AgreeIffNoClash | crates/umbrella-client/src/core.rs:1360-1386 | once the half-done calls on a chat have completed, in any order, the maps agree on it if and only if no registration and unregistration of it were half done together; otherwise it has ratchet state and no group |
| Registry.RegisterUnregisterAgreeIffApart | crates/umbrella-client/src/core.rs:1360-1386 | over all six orders of the four lock steps, a registration and an unregistration of one chat leave the maps agreeing if and only if they do not overlap |
| Registry.RegistrationsSerializeIff | crates/umbrella-client/src/core.rs:1360-1366 | two registrations of one chat always leave the maps agreeing, and leave a serial outcome if and only if the call that takes the first lock does not also take the last |
| Lifecycle.SessionState.constructor | crates/umbrella-client/src/lifecycle.rs:59-65 | a new session is live with no timer |
| Lifecycle.SessionState.IsLive | crates/umbrella-client/src/lifecycle.rs:68-70 | whether the session is still held |
| Lifecycle.SessionState.Wipe | crates/umbrella-client/src/lifecycle.rs:73-80 | drops session and timer, keeps the heartbeat |
| Lifecycle.SessionState.OnEvent | crates/umbrella-client/src/lifecycle.rs:83-122 | the whole new state; on a live session true exactly when this event wiped it |
| Lifecycle.LiveIffNothingEnded | crates/umbrella-client/src/lifecycle.rs:83-122 | for every trace, live at the end exactly when no lock-like event occurred and no tick came at or after the deadline of the latest uncancelled Background |
| Lifecycle.WipedForever | crates/umbrella-client/src/lifecycle.rs:73-122 | once wiped, no continuation makes the session live again |
| Witness.SignPayloadInjective | crates/umbrella-kt/src/witness.rs:170-185 | the signed payload determines epoch, root, log size and time |
| Witness.SignPayloadLayout | crates/umbrella-kt/src/witness.rs:170-185 | where epoch, root, log size and time stand in what a witness signs |
| Witness.VerifySignedEpoch | crates/umbrella-kt/src/witness.rs:206-257 | accepts exactly when at least threshold (positive) distinct pinned witnesses have a signature in the list that their key verifies, duplicates and strangers not counted; otherwise the count |
| Witness.AcceptedIffEnoughSigned | crates/umbrella-kt/src/witness.rs:206-257 | a root is accepted exactly when some threshold or more pinned witnesses each have an entry whose signature Ed25519 verifies over its epoch, root, size and time |
| Witness.VerifyStaged | crates/umbrella-client/src/kt_monitor.rs:183-211 | accepts exactly a staged root of the requested epoch with a quorum; a missing root, a wrong epoch and a missed quorum each with its error and counts |
| Witness.VerifyFetched | crates/umbrella-client/src/kt_monitor.rs:312-346 | accepts exactly a single decodable frame of the requested epoch with a quorum; every failure with its error |
| Witness.SplitViewNeedsDoubleSigners | crates/umbrella-client/src/kt_monitor.rs:183-346 | two accepted different roots of one epoch need 2·threshold − n pinned witnesses whose keys verify a signature over each of them |
| Witness.FewDoubleSignersAgree | crates/umbrella-client/src/kt_monitor.rs:183-346 | with fewer double signers all clients agree on the root |
| Attestation.TranscriptInjective | crates/umbrella-identity/src/attestation.rs:222-247 | the signed transcript determines all metadata |
| Attestation.ToBytes | crates/umbrella-identity/src/attestation.rs:135-145 | the array filled field by field is the serialisation |
| Attestation.FromBytes | crates/umbrella-identity/src/attestation.rs:149-184 | accepts exactly the serialisations whose device key decodes, returning the one attestation with those bytes |
| Attestation.IssuedBytes | crates/umbrella-identity/src/attestation.rs:73-106 | reading the bytes of an issued attestation gives back account, device index, times and key, and the signature is over domain, zero byte and the first 57 bytes |
| Attestation.VerifyErrors | crates/umbrella-identity/src/attestation.rs:109-131 | every refusal with its error, in the order of the checks |
| Attestation.VerifiedMeansIssued | crates/umbrella-identity/src/attestation.rs:109-132 | if under the attestation domain the identity signs only issued transcripts, whatever verifies carries the metadata of an issued, unexpired attestation |
| Attestation.IssuedVerifiesUntilExpiry | crates/umbrella-identity/src/attestation.rs:73-132 | an issued attestation verifies exactly up to its expiry |
| Attestation.VerifiableIffIssued | crates/umbrella-identity/src/attestation.rs:73-132 | for an identity that under the attestation domain signs exactly what it issues, metadata can be made to verify at a time if and only if it was issued and has not expired |
| Derive.DerivePath | crates/umbrella-identity/src/derive.rs:186-192 | the loop computes the recursive SLIP-0010 derivation: secret followed by chain code is HMAC under the parent's chain code of a zero byte, the parent's secret and the index |
| Derive.FromSeed | crates/umbrella-identity/src/derive.rs:111-132 | secret followed by chain code is HMAC under "ed25519 seed" of the seed |
| Derive.DeriveChild | crates/umbrella-identity/src/derive.rs:139-180 | secret followed by chain code is HMAC under the parent's chain code of a zero byte, the parent's secret and the index |
| Derive.DeriveConcat | crates/umbrella-identity/src/derive.rs:186-192 | deriving along p followed by r is deriving along p and then along r |
| Derive.PathsDiffer | crates/umbrella-identity/src/derive.rs:139-192 | different equally long hardened paths from one node give different extended keys, or two exhibited HMAC inputs collide |
| Derive.SeedsAndPathsDiffer | crates/umbrella-identity/src/derive.rs:108-200 | derivation from a seed is injective in seed and path together, for paths of any lengths, or two exhibited HMAC inputs collide even with padded keys, or one of them uses the master constant padded to a chain code |

## Left out

- Ristretto255, SHA-2, HKDF, HMAC, ChaCha20-Poly1305, Ed25519: abstract functions; group elements are exponents of a fixed generator modulo a prime, and only the algebra or the sealing round trip that a proof needs is required of them.
- Secrecy, unlinkability and timing: not functional properties of this code.
- The salts, and the encoding of a server's share that seeds its tag: opaque values; no client check rests on them.
- Randomness (blinding scalars, nonces, salts): parameters, quantified over; blinding scalars are nonzero as the scalar generator guarantees.
- Clocks: a parameter of each call; readings from which a day can be added without overflow, and lifecycle times are unbounded seconds.
- `derive_per_contact_anon_ids` and the anonymous ids: an abstract function, copied through.
- PsiQueryEntry and PsiResponseEntry: one datatype, since both are an identifier and a 32-byte element.
- Error texts: errors carry their kind and numbers, not their messages.
- `decode_signed_epoch_root`, `verify_own_entry`, `run_kt_self_monitor_once`: the frame decoder is a parameter; the rest only sequences calls.
- The cascade revocation of device entries in `apply_identity_rotation`: it decides about no rotation entry; the mirror keeps identity key, recovery proof and epoch.
- RotationSteps.SurfacesStayOrdered: one rotation at a time, with any readers (RotationOverlap and RotationSurfaces cover any number of rotations); lock poisoning, tokio scheduling and direct calls of the swap methods by others are outside.
- Rotation.ClientCore.RotateIdentityFull: starts from any core, but the chain theorems start from a coherent one; a core fresh from hardware bootstrap has a separate MLS key and its pre-flight refuses.
- The legacy `identity` fallback of `identity_verifying_key`, `has_hw_identity`: accessors without an invariant of their own.
- Transports, gateway, FFI crates, call policy, memory locking and zeroisation: plumbing or memory-level behaviour.
