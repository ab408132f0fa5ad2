/** Ledger infos and waypoints: `block_info.rs`, `ledger_info.rs`, `epoch_state.rs`, `waypoint.rs`. */
module Ledger {
  import opened Prelude
  import opened Bls
  import opened Validators

  type Version = nat
  type HashValue = nat

  datatype EpochState = EpochState(epoch: nat, verifier: ValidatorVerifier)

  datatype BlockInfo = BlockInfo(
    epoch: nat, round: nat, id: HashValue, executedStateId: HashValue, version: Version,
    timestampUsecs: nat, nextEpochState: Option<EpochState>)
  {
    predicate HasReconfiguration() {
      nextEpochState.Some?
    }

    /** The epoch of the block that follows. */
    function NextBlockEpoch(): nat {
      match nextEpochState
      case Some(next) => next.epoch
      case None => epoch
    }
  }

  datatype LedgerInfo = LedgerInfo(commitInfo: BlockInfo, consensusDataHash: HashValue) {
    function Epoch(): nat {
      commitInfo.epoch
    }

    function Version(): Version {
      commitInfo.version
    }

    function NextEpochState(): Option<EpochState> {
      commitInfo.nextEpochState
    }

    predicate EndsEpoch() {
      commitInfo.HasReconfiguration()
    }

    /** The fields a waypoint commits to. Round, block id and consensus data hash are not among them. */
    function WaypointFields(): WaypointFields {
      Fields(commitInfo.epoch, commitInfo.executedStateId, commitInfo.version, commitInfo.timestampUsecs,
             commitInfo.nextEpochState)
    }
  }

  datatype WaypointFields = Fields(
    epoch: nat, rootHash: HashValue, version: Version, timestampUsecs: nat, nextEpochState: Option<EpochState>)

  datatype LedgerInfoWithSignatures =
    LedgerInfoWithSignatures(ledgerInfo: LedgerInfo, signatures: AggregateSignature)

  /** The two cryptographic operations of a light client: checking a multi-signature on a
      ledger info against a validator set, and hashing waypoint fields. */
  datatype Crypto = Crypto(
    check: (ValidatorVerifier, LedgerInfo, AggregateSignature) -> Result<(), VerifyError>,
    hash: WaypointFields -> HashValue)

  /** `verify_signatures` is `verify_multi_signatures` on the ledger info. */
  ghost function Deployed(scheme: Scheme<LedgerInfo>, hash: WaypointFields -> HashValue): Crypto {
    Crypto((v: ValidatorVerifier, li: LedgerInfo, multi: AggregateSignature) => VerifyMultiSpec(v, scheme, li, multi),
           hash)
  }

  datatype Waypoint = Waypoint(version: Version, value: HashValue)

  /** `Waypoint::new_any`. */
  function NewAny(crypto: Crypto, li: LedgerInfo): Waypoint {
    Waypoint(li.Version(), crypto.hash(li.WaypointFields()))
  }

  datatype LightClientError =
    | StaleTarget
    | EmptyProof
    | StaleProof
    | WaypointVersionMismatch
    | WaypointValueMismatch
    | UnexpectedEpoch
    | BadSignature(cause: VerifyError)
    | NoValidatorSet
    | InconsistentProof
    | WaypointNeedsEpochChange
    | MismatchWithVerifiedState

  /** `Waypoint::new_epoch_boundary`. */
  function NewEpochBoundary(crypto: Crypto, li: LedgerInfo): Result<Waypoint, LightClientError> {
    if li.EndsEpoch() then Success(NewAny(crypto, li)) else Failure(NoValidatorSet)
  }

  /** What a waypoint commits to: epoch, root hash, version, time and next epoch state, and no
      more. */
  lemma CommittedFieldsExactly(a: LedgerInfo, b: LedgerInfo)
    ensures a.WaypointFields() == b.WaypointFields() <==>
            && a.Epoch() == b.Epoch() && a.Version() == b.Version() && a.NextEpochState() == b.NextEpochState()
            && a.commitInfo.executedStateId == b.commitInfo.executedStateId
            && a.commitInfo.timestampUsecs == b.commitInfo.timestampUsecs
  {
  }

  /** An epoch waypoint can be made exactly of a ledger info that ends its epoch. */
  lemma BoundaryExactly(crypto: Crypto, li: LedgerInfo)
    ensures NewEpochBoundary(crypto, li)
         == if li.NextEpochState() == None then Failure(NoValidatorSet)
            else Success(Waypoint(li.Version(), crypto.hash(li.WaypointFields())))
  {
  }
}
