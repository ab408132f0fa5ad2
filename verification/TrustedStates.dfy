/** The light client's ratchet: `trusted_state.rs`. */
module TrustedStates {
  import opened Prelude
  import opened Ledger
  import opened EpochChange

  datatype TrustedState =
    | AtEpochWaypoint(epochWaypoint: Waypoint)
    | InEpoch(waypoint: Waypoint, epochState: EpochState)
  {
    function GetWaypoint(): Waypoint {
      match this
      case AtEpochWaypoint(w) => w
      case InEpoch(w, _) => w
    }

    function Version(): Version {
      GetWaypoint().version
    }

    /** The `Verifier` implementation of a trusted state defers to what it holds. */
    function AsVerifier(): Verifier {
      match this
      case AtEpochWaypoint(w) => ByWaypoint(w)
      case InEpoch(_, epochState) => ByEpoch(epochState)
    }
  }

  datatype TrustedStateChange =
    | NewVersion(newState: TrustedState)
    | NewEpoch(newState: TrustedState, latestEpochChange: LedgerInfoWithSignatures)
    | NoChange

  type RatchetResult = Result<TrustedStateChange, LightClientError>

  /** `verify_and_ratchet_inner`. */
  function Ratchet(
    crypto: Crypto, state: TrustedState, latest: LedgerInfoWithSignatures, proof: EpochChangeProof): RatchetResult
  {
    if latest.ledgerInfo.Version() < state.Version() then Failure(StaleTarget)
    else if state.AsVerifier().EpochChangeVerificationRequired(latest.ledgerInfo.commitInfo.NextBlockEpoch()) then
      RatchetEpoch(crypto, state, latest, proof)
    else
      RatchetVersion(crypto, state, latest)
  }

  function RatchetEpoch(
    crypto: Crypto, state: TrustedState, latest: LedgerInfoWithSignatures, proof: EpochChangeProof): RatchetResult
  {
    var epochChange :- VerifyProof(crypto, state.AsVerifier(), proof.ledgerInfos);
    match epochChange.ledgerInfo.NextEpochState()
    case None => Failure(NoValidatorSet)
    case Some(next) =>
      var verified :- ChooseVerified(crypto, next, epochChange, latest, proof.more);
      Success(NewEpoch(InEpoch(NewAny(crypto, verified.ledgerInfo), next), epochChange))
  }

  /** The latest ledger info if it is the epoch change itself or verifies in the new epoch;
      the epoch change if the server says there is more to come. */
  function ChooseVerified(
    crypto: Crypto, next: EpochState, epochChange: LedgerInfoWithSignatures, latest: LedgerInfoWithSignatures, more: bool)
    : Result<LedgerInfoWithSignatures, LightClientError>
  {
    if epochChange == latest then Success(latest)
    else if latest.ledgerInfo.Epoch() == next.epoch then
      var _ :- ByEpoch(next).Verify(crypto, latest);
      Success(latest)
    else if latest.ledgerInfo.Epoch() > next.epoch && more then Success(epochChange)
    else Failure(InconsistentProof)
  }

  function RatchetVersion(crypto: Crypto, state: TrustedState, latest: LedgerInfoWithSignatures): RatchetResult {
    match state
    case AtEpochWaypoint(_) => Failure(WaypointNeedsEpochChange)
    case InEpoch(waypoint, epochState) =>
      var newWaypoint := NewAny(crypto, latest.ledgerInfo);
      if newWaypoint.version == waypoint.version then
        if newWaypoint == waypoint then Success(NoChange) else Failure(MismatchWithVerifiedState)
      else
        var _ :- ByEpoch(epochState).Verify(crypto, latest);
        Success(NewVersion(InEpoch(newWaypoint, epochState)))
  }

  /** The client has to change its epoch before it can check the ledger info: it only has a
      waypoint, or what follows the ledger info belongs to a later epoch than its own. */
  predicate NeedsProof(state: TrustedState, latest: LedgerInfoWithSignatures) {
    match state
    case AtEpochWaypoint(_) => true
    case InEpoch(_, epochState) =>
      match latest.ledgerInfo.NextEpochState()
      case Some(next) => next.epoch > epochState.epoch
      case None => latest.ledgerInfo.Epoch() > epochState.epoch
  }

  /** A target behind the client is refused as stale whatever else is true, and nothing else is. */
  lemma StaleExactly(crypto: Crypto, state: TrustedState, latest: LedgerInfoWithSignatures, proof: EpochChangeProof)
    ensures Ratchet(crypto, state, latest, proof) == Failure(StaleTarget) <==>
            latest.ledgerInfo.Version() < state.Version()
  {
    var i := ProofOutcome(crypto, state.AsVerifier(), proof.ledgerInfos);
  }

  /** Where a proof is needed, one that does not verify is refused with its own error. */
  lemma BadProofIsRefused(crypto: Crypto, state: TrustedState, latest: LedgerInfoWithSignatures, proof: EpochChangeProof)
    requires latest.ledgerInfo.Version() >= state.Version() && NeedsProof(state, latest)
    requires VerifyProof(crypto, state.AsVerifier(), proof.ledgerInfos).Failure?
    ensures Ratchet(crypto, state, latest, proof)
         == Failure(VerifyProof(crypto, state.AsVerifier(), proof.ledgerInfos).error)
  {
  }

  /** What a ratchet answers to a verified proof that ends in `last` and hands over `next`: the
      last ending itself, and a ledger info that the new validator set signed, are adopted; one
      that it did not sign is refused for its signature. A ledger info of a later epoch takes
      the client as far as the proof reaches if the server admits that there is more, and is
      refused otherwise, as is one of an earlier epoch. */
  ghost function Answer(
    crypto: Crypto, next: EpochState, last: LedgerInfoWithSignatures, latest: LedgerInfoWithSignatures, more: bool)
    : RatchetResult
  {
    var adopted := Success(NewEpoch(InEpoch(NewAny(crypto, latest.ledgerInfo), next), last));
    if latest == last then adopted
    else if latest.ledgerInfo.Epoch() < next.epoch then Failure(InconsistentProof)
    else if latest.ledgerInfo.Epoch() > next.epoch then
      if more then Success(NewEpoch(InEpoch(NewAny(crypto, last.ledgerInfo), next), last)) else Failure(InconsistentProof)
    else match crypto.check(next.verifier, latest.ledgerInfo, latest.signatures)
      case Success(_) => adopted
      case Failure(cause) => Failure(BadSignature(cause))
  }

  /** Where a proof is needed and verifies, its last ledger info decides, genuine or not. */
  lemma VerifiedProofDecides(crypto: Crypto, state: TrustedState, latest: LedgerInfoWithSignatures, proof: EpochChangeProof)
    requires latest.ledgerInfo.Version() >= state.Version() && NeedsProof(state, latest)
    requires VerifyProof(crypto, state.AsVerifier(), proof.ledgerInfos).Success?
    ensures var last := proof.ledgerInfos[|proof.ledgerInfos| - 1];
            && last.ledgerInfo.NextEpochState().Some?
            && Ratchet(crypto, state, latest, proof)
               == Answer(crypto, last.ledgerInfo.NextEpochState().value, last, latest, proof.more)
  {
    VerifiedEndsEpoch(crypto, state.AsVerifier(), proof.ledgerInfos);
  }

  /** A client whose response is refused stays where it is. */
  lemma RefusalKeepsState(crypto: Crypto, state: TrustedState, response: Response)
    requires Ratchet(crypto, state, response.latest, response.proof).Failure?
    ensures Step(crypto, state, response) == state
  {
  }

  // ---------- Runs ----------

  datatype Response = Response(latest: LedgerInfoWithSignatures, proof: EpochChangeProof)

  /** A client adopts what a successful ratchet gives it and ignores failures. */
  function Step(crypto: Crypto, state: TrustedState, response: Response): TrustedState {
    match Ratchet(crypto, state, response.latest, response.proof)
    case Failure(_) => state
    case Success(NoChange) => state
    case Success(NewVersion(next)) => next
    case Success(NewEpoch(next, _)) => next
  }

  function Run(crypto: Crypto, state: TrustedState, responses: seq<Response>): TrustedState {
    if responses == [] then state
    else Step(crypto, Run(crypto, state, responses[..|responses| - 1]), responses[|responses| - 1])
  }
}
