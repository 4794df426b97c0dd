/**
  From received evaluations to a label: decode, combine and unblind, as the finalizers of `psi.rs` and
  `username_lookup.rs` both do.
 */
module Labels {
  import opened Bytes
  import opened Lagrange
  import opened Oprf
  import opened Discovery

  /** Every received element from position `n` on decodes. */
  predicate RestDecodes(suite: Suite, received: seq<(WitnessIndex, Bytes32)>, n: int) {
    forall j :: 0 <= j < |received| && n <= j ==> suite.DecodeElement(received[j].1).Some?
  }

  /** The label that received evaluations of the blinded `input` lead to, if every one decodes and they combine. */
  ghost function LabelOf(suite: Suite, r: int, input: seq<Byte>, received: seq<(WitnessIndex, Bytes32)>,
                         config: ThresholdConfig): Option<Bytes32>
    requires suite.q > 0
  {
    if !RestDecodes(suite, received, 0) || !Combinable(suite, received, config) || !AcceptedInput(input) then None
    else
      var found := Finalize(suite, r, input, CombinedElement(suite, received, config));
      if found.Err? then None else Some(found.value)
  }

  /** The decoding loop of the finalizers. */
  method DecodeShares(suite: Suite, received: seq<(WitnessIndex, Bytes32)>)
    returns (r: Result<seq<(WitnessIndex, Bytes32)>, OprfError>)
    ensures r.Ok? <==> RestDecodes(suite, received, 0)
    ensures r.Err? ==> r.error == InvalidRistrettoEncoding
    ensures r.Ok? ==> r.value == received
  {
    var partials: seq<(WitnessIndex, Bytes32)> := [];
    for k := 0 to |received|
      invariant forall j :: 0 <= j < k ==> suite.DecodeElement(received[j].1).Some?
      invariant partials == received[..k]
    {
      if suite.DecodeElement(received[k].1).None? {
        return Err(InvalidRistrettoEncoding);
      }
      partials := partials + [received[k]];
    }
    return Ok(partials);
  }

  /** Decode, combine and unblind. */
  method FinalizeLabel(suite: Suite, r: int, input: seq<Byte>, received: seq<(WitnessIndex, Bytes32)>,
                       config: ThresholdConfig)
    returns (l: Result<Bytes32, DiscoveryError>)
    requires suite.q > 0
    ensures l.Ok? <==> LabelOf(suite, r, input, received, config).Some?
    ensures l.Ok? ==> Some(l.value) == LabelOf(suite, r, input, received, config) && received != []
    ensures l.Err? ==> l.error.OprfFailure? || l.error.InputRejected?
    ensures l == Err(InputRejected) <==>
            RestDecodes(suite, received, 0) && Combinable(suite, received, config) && !AcceptedInput(input)
  {
    var partials := DecodeShares(suite, received);
    if partials.Err? {
      return Err(OprfFailure(partials.error));
    }
    var combined := ThresholdCombine(suite, partials.value, config);
    if combined.Err? {
      return Err(OprfFailure(combined.error));
    }
    if !AcceptedInput(input) {
      return Err(InputRejected);
    }
    var found := Finalize(suite, r, input, combined.value);
    if found.Err? {
      return Err(OprfFailure(found.error));
    }
    l := Ok(found.value);
  }

  /**
    When the first `threshold` evaluations are honest, whichever servers they came from, they lead to the master label,
    unless the key is zero or one of the other elements, honest or not, does not decode.
   */
  lemma HonestLabel(suite: Suite, cs: seq<int>, input: seq<Byte>, r: int, blinded: Bytes32,
                    received: seq<(WitnessIndex, Bytes32)>, config: ThresholdConfig)
    requires suite.Valid() && ValidConfig(config) && |cs| <= config.threshold <= |received|
    requires DistinctIndices(received, config.total)
    requires r % suite.q != 0 && AcceptedInput(input) && Blind(suite, input, r) == Ok(blinded)
    requires HonestShares(suite, cs, blinded, received, config.threshold)
    ensures LabelOf(suite, r, input, received, config) ==
            if Eval(cs, 0) % suite.q == 0 || !RestDecodes(suite, received, config.threshold) then None
            else Some(MasterLabel(suite, Eval(cs, 0), input))
  {
    ThresholdOprfCorrect(suite, cs, input, r, blinded, received, config);
    HonestSharesDecode(suite, cs, blinded, received, config.threshold);
  }

  lemma HonestSharesDecode(suite: Suite, cs: seq<int>, blinded: Bytes32, received: seq<(WitnessIndex, Bytes32)>, n: int)
    requires suite.Valid() && n <= |received| && HonestShares(suite, cs, blinded, received, n)
    ensures RestDecodes(suite, received, 0) <==> RestDecodes(suite, received, n)
  {
    forall j | 0 <= j < n
      ensures suite.DecodeElement(received[j].1).Some?
    {
      EvaluationDecodes(suite, blinded, Eval(cs, received[j].0), received[j].1);
    }
  }
}
