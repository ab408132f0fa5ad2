/** Verifying a chain of epoch changes: `epoch_change.rs` and the two basic verifiers. */
module EpochChange {
  import opened Prelude
  import opened Validators
  import opened Ledger

  type LedgerInfos = seq<LedgerInfoWithSignatures>

  type Outcome = Result<(), LightClientError>

  /** The implementations of the `Verifier` trait that do the work. */
  datatype Verifier = ByWaypoint(waypoint: Waypoint) | ByEpoch(epochState: EpochState) {

    function Verify(crypto: Crypto, li: LedgerInfoWithSignatures): Outcome {
      match this
      case ByWaypoint(waypoint) =>
        if li.ledgerInfo.Version() != waypoint.version then Failure(WaypointVersionMismatch)
        else if crypto.hash(li.ledgerInfo.WaypointFields()) != waypoint.value then Failure(WaypointValueMismatch)
        else Success(())
      case ByEpoch(epochState) =>
        if epochState.epoch != li.ledgerInfo.Epoch() then Failure(UnexpectedEpoch)
        else match crypto.check(epochState.verifier, li.ledgerInfo, li.signatures)
          case Success(_) => Success(())
          case Failure(cause) => Failure(BadSignature(cause))
    }

    predicate EpochChangeVerificationRequired(epoch: nat) {
      match this
      case ByWaypoint(_) => true
      case ByEpoch(epochState) => epochState.epoch < epoch
    }

    predicate IsStale(li: LedgerInfo) {
      match this
      case ByWaypoint(waypoint) => li.Version() < waypoint.version
      case ByEpoch(epochState) => li.Epoch() < epochState.epoch
    }
  }

  /** A waypoint is convinced exactly by its own version and hash, and an epoch's validator set by
      ledger infos of its epoch that it signed. */
  lemma ConvincedExactly(crypto: Crypto, verifier: Verifier, li: LedgerInfoWithSignatures)
    ensures verifier.Verify(crypto, li).Success? <==>
            match verifier
            case ByWaypoint(w) => w == NewAny(crypto, li.ledgerInfo)
            case ByEpoch(state) =>
              state.epoch == li.ledgerInfo.Epoch() && crypto.check(state.verifier, li.ledgerInfo, li.signatures).Success?
  {
  }

  /** A waypoint is past the ledger infos of lower versions, a validator set past those of earlier
      epochs. */
  lemma StaleForExactly(w: Waypoint, state: EpochState, li: LedgerInfo)
    ensures ByWaypoint(w).IsStale(li) <==> w.version > li.Version()
    ensures ByEpoch(state).IsStale(li) <==> state.epoch > li.Epoch()
  {
  }

  datatype EpochChangeProof = EpochChangeProof(ledgerInfos: LedgerInfos, more: bool)

  /** What is left after the stale prefix. */
  function SkipStale(verifier: Verifier, lis: LedgerInfos): LedgerInfos {
    if lis != [] && verifier.IsStale(lis[0].ledgerInfo) then SkipStale(verifier, lis[1..]) else lis
  }

  /** Each ledger info verifies under the state that the one before it hands over. */
  function VerifyChain(crypto: Crypto, verifier: Verifier, lis: LedgerInfos): Outcome
    decreases |lis|
  {
    if lis == [] then Success(())
    else
      var _ :- verifier.Verify(crypto, lis[0]);
      match lis[0].ledgerInfo.NextEpochState()
      case None => Failure(NoValidatorSet)
      case Some(next) => VerifyChain(crypto, ByEpoch(next), lis[1..])
  }

  function VerifyProof(crypto: Crypto, verifier: Verifier, lis: LedgerInfos)
    : Result<LedgerInfoWithSignatures, LightClientError>
  {
    if lis == [] then Failure(EmptyProof)
    else if verifier.IsStale(lis[|lis| - 1].ledgerInfo) then Failure(StaleProof)
    else
      var _ :- VerifyChain(crypto, verifier, SkipStale(verifier, lis));
      Success(lis[|lis| - 1])
  }

  /** `EpochChangeProof::verify`. */
  method Verify(crypto: Crypto, proof: EpochChangeProof, verifier: Verifier)
    returns (r: Result<LedgerInfoWithSignatures, LightClientError>)
    ensures r == VerifyProof(crypto, verifier, proof.ledgerInfos)
  {
    var lis := proof.ledgerInfos;
    if lis == [] {
      return Failure(EmptyProof);
    }
    if verifier.IsStale(lis[|lis| - 1].ledgerInfo) {
      return Failure(StaleProof);
    }
    var k := 0;
    while k < |lis| && verifier.IsStale(lis[k].ledgerInfo)
      invariant 0 <= k <= |lis|
      invariant SkipStale(verifier, lis[k..]) == SkipStale(verifier, lis)
    {
      assert lis[k..][1..] == lis[k + 1..];
      k := k + 1;
    }
    ghost var remaining := lis[k..];
    var verifierRef := verifier;
    while k < |lis|
      invariant 0 <= k <= |lis|
      invariant VerifyChain(crypto, verifierRef, lis[k..]) == VerifyChain(crypto, verifier, remaining)
    {
      assert lis[k..][1..] == lis[k + 1..];
      var _ :- verifierRef.Verify(crypto, lis[k]);
      match lis[k].ledgerInfo.NextEpochState() {
        case None => return Failure(NoValidatorSet);
        case Some(next) => verifierRef := ByEpoch(next);
      }
      k := k + 1;
    }
    return Success(lis[|lis| - 1]);
  }

  // ---------- Splitting and padding a proof ----------

  ghost predicate AllFresh(verifier: Verifier, lis: LedgerInfos) {
    forall i :: 0 <= i < |lis| ==> !verifier.IsStale(lis[i].ledgerInfo)
  }

  ghost predicate AllStale(verifier: Verifier, lis: LedgerInfos) {
    forall i :: 0 <= i < |lis| ==> verifier.IsStale(lis[i].ledgerInfo)
  }

  /** An epoch's last ledger info names the next epoch. */
  ghost predicate WellFormedNext(lis: LedgerInfos) {
    forall i :: 0 <= i < |lis| && lis[i].ledgerInfo.EndsEpoch() ==>
      lis[i].ledgerInfo.NextEpochState().value.epoch == lis[i].ledgerInfo.Epoch() + 1
  }

  lemma SkipNothing(verifier: Verifier, lis: LedgerInfos)
    requires lis != [] ==> !verifier.IsStale(lis[0].ledgerInfo)
    ensures SkipStale(verifier, lis) == lis
  {
  }

  lemma {:induction false} SkipPrefix(verifier: Verifier, stale: LedgerInfos, lis: LedgerInfos)
    requires AllStale(verifier, stale)
    ensures SkipStale(verifier, stale + lis) == SkipStale(verifier, lis)
  {
    if stale == [] {
      assert stale + lis == lis;
    } else {
      assert (stale + lis)[0] == stale[0];
      assert (stale + lis)[1..] == stale[1..] + lis;
      SkipPrefix(verifier, stale[1..], lis);
    }
  }

  /** Stale ledger infos in front never change the result of a non-empty proof. */
  lemma StalePrefixIgnored(crypto: Crypto, verifier: Verifier, stale: LedgerInfos, lis: LedgerInfos)
    requires AllStale(verifier, stale) && lis != []
    ensures VerifyProof(crypto, verifier, stale + lis) == VerifyProof(crypto, verifier, lis)
  {
    SkipPrefix(verifier, stale, lis);
    assert (stale + lis)[|stale + lis| - 1] == lis[|lis| - 1];
  }

  /** The epoch state a non-empty verified proof ends in. */
  ghost function Handover(lis: LedgerInfos): Option<EpochState>
    requires lis != []
  {
    lis[|lis| - 1].ledgerInfo.NextEpochState()
  }

  lemma {:induction false} ChainSplits(crypto: Crypto, verifier: Verifier, p: LedgerInfos, q: LedgerInfos)
    requires p != []
    ensures VerifyChain(crypto, verifier, p).Success? ==> Handover(p).Some?
    ensures VerifyChain(crypto, verifier, p + q).Success? <==>
            VerifyChain(crypto, verifier, p).Success? && VerifyChain(crypto, ByEpoch(Handover(p).value), q).Success?
    decreases |p|
  {
    assert (p + q)[0] == p[0] && (p + q)[1..] == p[1..] + q;
    if |p| == 1 {
      assert p[1..] == [] && p[1..] + q == q;
    } else if p[0].ledgerInfo.EndsEpoch() {
      assert Handover(p[1..]) == Handover(p);
      ChainSplits(crypto, ByEpoch(p[0].ledgerInfo.NextEpochState().value), p[1..], q);
    }
  }

  /** Along a verified chain of well-formed ledger infos epochs only go up. */
  lemma {:induction false} ChainEpochs(crypto: Crypto, state: EpochState, lis: LedgerInfos)
    requires VerifyChain(crypto, ByEpoch(state), lis).Success? && WellFormedNext(lis)
    ensures forall i :: 0 <= i < |lis| ==> lis[i].ledgerInfo.Epoch() == state.epoch + i
    decreases |lis|
  {
    if lis != [] {
      ChainEpochs(crypto, lis[0].ledgerInfo.NextEpochState().value, lis[1..]);
      forall i | 1 <= i < |lis|
        ensures lis[i].ledgerInfo.Epoch() == state.epoch + i
      {
        assert lis[1..][i - 1] == lis[i];
      }
    }
  }

  /** Verifying a fresh proof whole succeeds exactly when verifying a non-empty proper prefix
      succeeds, verifying the rest from the state the prefix hands over succeeds, and the rest
      does not begin with a ledger info that is stale for that state. */
  lemma ProofSplits(crypto: Crypto, verifier: Verifier, p: LedgerInfos, q: LedgerInfos)
    requires p != [] && q != []
    requires AllFresh(verifier, p + q) && WellFormedNext(p + q)
    ensures VerifyProof(crypto, verifier, p + q).Success? <==>
            && VerifyProof(crypto, verifier, p).Success?
            && Handover(p).Some?
            && !ByEpoch(Handover(p).value).IsStale(q[0].ledgerInfo)
            && VerifyProof(crypto, ByEpoch(Handover(p).value), q).Success?
    ensures VerifyProof(crypto, verifier, p + q).Success? ==>
              VerifyProof(crypto, verifier, p + q) == VerifyProof(crypto, ByEpoch(Handover(p).value), q)
  {
    var whole := p + q;
    assert whole[0] == p[0] && whole[|p| - 1] == p[|p| - 1] && whole[|whole| - 1] == q[|q| - 1];
    assert forall i :: 0 <= i < |q| ==> whole[|p| + i] == q[i];
    SkipNothing(verifier, p);
    SkipNothing(verifier, whole);
    ChainSplits(crypto, verifier, p, q);
    if Handover(p).Some? {
      var next := Handover(p).value;
      if VerifyChain(crypto, ByEpoch(next), q).Success? {
        ChainEpochs(crypto, next, q);
      }
      if !ByEpoch(next).IsStale(q[0].ledgerInfo) {
        SkipNothing(ByEpoch(next), q);
      }
    }
  }

  // ---------- Which proofs are accepted, and why the others are not ----------

  /** Whom the ledger info at `i` of a chain has to convince: the verifier at first, then the
      validator set the one before it names. */
  function VerifierAt(verifier: Verifier, lis: LedgerInfos, i: nat): Verifier
    requires i < |lis|
  {
    if i == 0 || lis[i - 1].ledgerInfo.NextEpochState() == None then verifier
    else ByEpoch(lis[i - 1].ledgerInfo.NextEpochState().value)
  }

  /** The first `n` ledger infos all end an epoch and convince whom they have to. */
  ghost predicate LinkedUpto(crypto: Crypto, verifier: Verifier, lis: LedgerInfos, n: nat)
    requires n <= |lis|
  {
    forall i :: 0 <= i < n ==>
      lis[i].ledgerInfo.EndsEpoch() && VerifierAt(verifier, lis, i).Verify(crypto, lis[i]).Success?
  }

  /** The ledger info at `j` breaks the chain, with this error. */
  ghost predicate BreaksAt(crypto: Crypto, verifier: Verifier, lis: LedgerInfos, j: nat, error: LightClientError)
    requires j < |lis|
  {
    var verified := VerifierAt(verifier, lis, j).Verify(crypto, lis[j]);
    verified == Failure(error) || (verified.Success? && !lis[j].ledgerInfo.EndsEpoch() && error == NoValidatorSet)
  }

  /** The chain is linked up to some ledger info, which breaks it. */
  ghost predicate Broken(crypto: Crypto, verifier: Verifier, lis: LedgerInfos, error: LightClientError) {
    exists j :: 0 <= j < |lis| && LinkedUpto(crypto, verifier, lis, j) && BreaksAt(crypto, verifier, lis, j, error)
  }

  lemma LinkShift(verifier: Verifier, lis: LedgerInfos, i: nat)
    requires i + 1 < |lis| && lis[0].ledgerInfo.EndsEpoch() && lis[i].ledgerInfo.EndsEpoch()
    ensures lis[1..][i] == lis[i + 1]
    ensures VerifierAt(ByEpoch(lis[0].ledgerInfo.NextEpochState().value), lis[1..], i) == VerifierAt(verifier, lis, i + 1)
  {
    assert i > 0 ==> lis[1..][i - 1] == lis[i];
  }

  lemma LinkedFromFirst(crypto: Crypto, verifier: Verifier, lis: LedgerInfos, n: nat)
    requires 0 < n <= |lis| && lis[0].ledgerInfo.EndsEpoch() && verifier.Verify(crypto, lis[0]).Success?
    ensures LinkedUpto(crypto, verifier, lis, n) <==>
            LinkedUpto(crypto, ByEpoch(lis[0].ledgerInfo.NextEpochState().value), lis[1..], n - 1)
  {
    var next, rest := ByEpoch(lis[0].ledgerInfo.NextEpochState().value), lis[1..];
    if LinkedUpto(crypto, verifier, lis, n) {
      forall i | 0 <= i < n - 1
        ensures rest[i].ledgerInfo.EndsEpoch() && VerifierAt(next, rest, i).Verify(crypto, rest[i]).Success?
      {
        LinkShift(verifier, lis, i);
      }
    }
    if LinkedUpto(crypto, next, rest, n - 1) {
      forall i | 0 < i < n
        ensures lis[i].ledgerInfo.EndsEpoch() && VerifierAt(verifier, lis, i).Verify(crypto, lis[i]).Success?
      {
        assert i > 1 ==> rest[i - 2].ledgerInfo.EndsEpoch();
        LinkShift(verifier, lis, i - 1);
      }
    }
  }

  /** A chain is accepted exactly when it is linked throughout; otherwise the error is that of
      the first ledger info that breaks it. */
  lemma {:induction false} ChainOutcome(crypto: Crypto, verifier: Verifier, lis: LedgerInfos)
    ensures VerifyChain(crypto, verifier, lis).Success? <==> LinkedUpto(crypto, verifier, lis, |lis|)
    ensures VerifyChain(crypto, verifier, lis).Failure? ==>
              Broken(crypto, verifier, lis, VerifyChain(crypto, verifier, lis).error)
    decreases |lis|
  {
    if lis != [] {
      if lis[0].ledgerInfo.EndsEpoch() && verifier.Verify(crypto, lis[0]).Success? {
        var next, rest := ByEpoch(lis[0].ledgerInfo.NextEpochState().value), lis[1..];
        ChainOutcome(crypto, next, rest);
        LinkedFromFirst(crypto, verifier, lis, |lis|);
        if VerifyChain(crypto, next, rest).Failure? {
          var j :| 0 <= j < |rest| && LinkedUpto(crypto, next, rest, j) &&
            BreaksAt(crypto, next, rest, j, VerifyChain(crypto, next, rest).error);
          LinkedFromFirst(crypto, verifier, lis, j + 1);
          assert VerifierAt(next, rest, j) == VerifierAt(verifier, lis, j + 1);
          assert BreaksAt(crypto, verifier, lis, j + 1, VerifyChain(crypto, verifier, lis).error);
        }
      } else {
        assert LinkedUpto(crypto, verifier, lis, 0);
        assert BreaksAt(crypto, verifier, lis, 0, VerifyChain(crypto, verifier, lis).error);
      }
    }
  }

  /** What skipping leaves begins at the first ledger info that is not stale. */
  lemma {:induction false} SkipStaleExactly(verifier: Verifier, lis: LedgerInfos) returns (i: nat)
    ensures i <= |lis| && SkipStale(verifier, lis) == lis[i..] && AllStale(verifier, lis[..i])
    ensures i < |lis| ==> !verifier.IsStale(lis[i].ledgerInfo)
  {
    i := 0;
    if lis != [] && verifier.IsStale(lis[0].ledgerInfo) {
      var k := SkipStaleExactly(verifier, lis[1..]);
      i := k + 1;
      assert lis[1..][k..] == lis[i..];
      assert forall j :: 1 <= j < i ==> lis[..i][j] == lis[1..][..k][j - 1];
    }
  }

  /** Everything before `i` is stale and the ledger info at `i` is not. */
  ghost predicate BeginsAt(verifier: Verifier, lis: LedgerInfos, i: nat) {
    i < |lis| && AllStale(verifier, lis[..i]) && !verifier.IsStale(lis[i].ledgerInfo)
  }

  /** The outcome of every proof: an empty one and one whose last ledger info is stale are
      refused as such; any other is decided by its part from the first ledger info that is not
      stale, which must be linked throughout, and if it is not then by what breaks it first. */
  lemma ProofOutcome(crypto: Crypto, verifier: Verifier, lis: LedgerInfos) returns (i: nat)
    ensures lis == [] ==> VerifyProof(crypto, verifier, lis) == Failure(EmptyProof)
    ensures lis != [] && verifier.IsStale(lis[|lis| - 1].ledgerInfo) ==>
              VerifyProof(crypto, verifier, lis) == Failure(StaleProof)
    ensures lis != [] && !verifier.IsStale(lis[|lis| - 1].ledgerInfo) ==>
              var result := VerifyProof(crypto, verifier, lis);
              && BeginsAt(verifier, lis, i)
              && (LinkedUpto(crypto, verifier, lis[i..], |lis[i..]|) ==> result == Success(lis[|lis| - 1]))
              && (!LinkedUpto(crypto, verifier, lis[i..], |lis[i..]|) ==>
                    result.Failure? && Broken(crypto, verifier, lis[i..], result.error))
  {
    i := SkipStaleExactly(verifier, lis);
    if lis != [] && !verifier.IsStale(lis[|lis| - 1].ledgerInfo) {
      ChainOutcome(crypto, verifier, lis[i..]);
    }
  }

  /** A verified proof gives back its last ledger info, which ends an epoch. */
  lemma VerifiedEndsEpoch(crypto: Crypto, verifier: Verifier, lis: LedgerInfos)
    requires VerifyProof(crypto, verifier, lis).Success?
    ensures lis != [] && VerifyProof(crypto, verifier, lis).value == lis[|lis| - 1] && Handover(lis).Some?
  {
    var i := ProofOutcome(crypto, verifier, lis);
    assert LinkedUpto(crypto, verifier, lis[i..], |lis| - i);
    assert lis[i..][|lis| - 1 - i] == lis[|lis| - 1];
  }

  /** Why the rest must not begin stale: skipping applies to the rest on its own, not in the
      middle of the whole. Take any accepted proof and send its first part twice: the first
      part is accepted, the whole proof is accepted again after it, but the two together are not. */
  lemma SplitNeedsFreshRest(crypto: Crypto, verifier: Verifier, p: LedgerInfos, q: LedgerInfos)
    requires p != [] && q != [] && AllFresh(verifier, p + q) && WellFormedNext(p + q)
    requires VerifyProof(crypto, verifier, p + q).Success?
    ensures AllFresh(verifier, p + (p + q)) && WellFormedNext(p + (p + q))
    ensures VerifyProof(crypto, verifier, p).Success? && Handover(p).Some?
    ensures VerifyProof(crypto, ByEpoch(Handover(p).value), p + q).Success?
    ensures VerifyProof(crypto, verifier, p + (p + q)).Failure?
  {
    ProofSplits(crypto, verifier, p, q);
    var next := Handover(p).value;
    HandoverIsAhead(crypto, verifier, p, q);
    StalePrefixIgnored(crypto, ByEpoch(next), p, q);
    TwiceIsFresh(verifier, p, q);
    ProofSplits(crypto, verifier, p, p + q);
  }

  lemma TwiceIsFresh(verifier: Verifier, p: LedgerInfos, q: LedgerInfos)
    requires AllFresh(verifier, p + q) && WellFormedNext(p + q)
    ensures AllFresh(verifier, p + (p + q)) && WellFormedNext(p + (p + q))
  {
    var twice, once := p + (p + q), p + q;
    forall i | 0 <= i < |twice|
      ensures twice[i] in once
    {
    }
    assert forall li :: li in once ==> !verifier.IsStale(li.ledgerInfo);
    assert forall li :: li in once && li.ledgerInfo.EndsEpoch() ==>
        li.ledgerInfo.NextEpochState().value.epoch == li.ledgerInfo.Epoch() + 1;
  }

  /** Everything in an accepted first part is stale for the state it hands over. */
  lemma HandoverIsAhead(crypto: Crypto, verifier: Verifier, p: LedgerInfos, q: LedgerInfos)
    requires p != [] && !verifier.IsStale(p[0].ledgerInfo) && WellFormedNext(p + q)
    requires VerifyProof(crypto, verifier, p).Success? && Handover(p).Some?
    ensures AllStale(ByEpoch(Handover(p).value), p)
  {
    SkipNothing(verifier, p);
    var next := p[0].ledgerInfo.NextEpochState().value;
    assert WellFormedNext(p[1..]) && WellFormedNext(p) by {
      assert forall i :: 0 <= i < |p| ==> (p + q)[i] == p[i];
      assert forall i :: 0 <= i < |p| - 1 ==> p[1..][i] == p[i + 1];
    }
    ChainEpochs(crypto, next, p[1..]);
    forall i | 0 <= i < |p|
      ensures p[i].ledgerInfo.Epoch() == p[0].ledgerInfo.Epoch() + i
    {
      if i > 0 {
        assert p[1..][i - 1] == p[i];
      }
    }
  }
}
