/** What a light client can rely on, whatever the servers send. */
module LightClientSafety {
  import opened Prelude
  import opened Bls
  import opened Validators
  import opened Quorums
  import opened Ledger
  import opened EpochChange
  import opened TrustedStates

  // ---------- The chain a client follows ----------

  /** The canonical history: the validator set of every epoch, and which ledger infos were
      committed. */
  datatype History = History(states: nat -> EpochState, canonical: LedgerInfo -> bool)

  ghost predicate Consistent(h: History) {
    && (forall e :: h.states(e).epoch == e)
    && (forall li :: h.canonical(li) && li.EndsEpoch() ==> li.NextEpochState() == Some(h.states(li.Epoch() + 1)))
    && (forall a, b :: h.canonical(a) && h.canonical(b) && a.Epoch() < b.Epoch() ==> a.Version() <= b.Version())
    && (forall a, b :: h.canonical(a) && h.canonical(b) && a.Epoch() == b.Epoch() && b.EndsEpoch() ==>
          a.Version() <= b.Version())
  }

  /** What the signatures and the hash guarantee about the history: a ledger info of epoch e
      accepted under the validator set of epoch e is canonical, and no ledger info other than
      one with the same committed fields hashes like a canonical one. */
  ghost predicate Secure(crypto: Crypto, h: History) {
    && (forall li: LedgerInfo, multi: AggregateSignature ::
          crypto.check(h.states(li.Epoch()).verifier, li, multi).Success? ==> h.canonical(li))
    && (forall li: LedgerInfo, other: LedgerInfo ::
          h.canonical(li) && crypto.hash(other.WaypointFields()) == crypto.hash(li.WaypointFields()) ==>
            other.WaypointFields() == li.WaypointFields())
  }

  // ---------- Trust ----------

  /** `li` commits to the same fields as some canonical ledger info. */
  ghost predicate Committed(h: History, li: LedgerInfo) {
    exists genuine :: h.canonical(genuine) && genuine.WaypointFields() == li.WaypointFields()
  }

  /** In the epoch, or ending the one before it. */
  predicate InOrOpening(li: LedgerInfo, epoch: nat) {
    li.Epoch() == epoch || (li.EndsEpoch() && li.Epoch() + 1 == epoch)
  }

  /** What `new_epoch_boundary` makes of the canonical end of some epoch. */
  ghost predicate GenuineEpochWaypoint(crypto: Crypto, h: History, w: Waypoint) {
    exists li :: h.canonical(li) && NewEpochBoundary(crypto, li) == Success(w)
  }

  ghost predicate CommitsInEpoch(crypto: Crypto, h: History, w: Waypoint, epoch: nat) {
    exists li :: h.canonical(li) && InOrOpening(li, epoch) && w == NewAny(crypto, li)
  }

  /** The canonical validator set for its epoch, and a waypoint on a canonical ledger info of
      that epoch or the one that opens it. */
  ghost predicate Trusted(crypto: Crypto, h: History, state: TrustedState) {
    match state
    case AtEpochWaypoint(w) => GenuineEpochWaypoint(crypto, h, w)
    case InEpoch(w, epochState) =>
      epochState == h.states(epochState.epoch) && CommitsInEpoch(crypto, h, w, epochState.epoch)
  }

  ghost predicate GoodVerifier(crypto: Crypto, h: History, verifier: Verifier) {
    match verifier
    case ByWaypoint(w) => GenuineEpochWaypoint(crypto, h, w)
    case ByEpoch(epochState) => epochState == h.states(epochState.epoch)
  }

  // ---------- One verified ledger info, one verified chain ----------

  /** A verified epoch change hands over the canonical next validator set. */
  ghost predicate GoodEpochChange(h: History, li: LedgerInfo) {
    Committed(h, li) && li.NextEpochState() == Some(h.states(li.Epoch() + 1))
  }

  lemma VerifiedIsCommitted(crypto: Crypto, h: History, verifier: Verifier, li: LedgerInfoWithSignatures)
    requires Consistent(h) && Secure(crypto, h) && GoodVerifier(crypto, h, verifier)
    requires verifier.Verify(crypto, li).Success?
    ensures Committed(h, li.ledgerInfo)
    ensures li.ledgerInfo.EndsEpoch() ==> GoodEpochChange(h, li.ledgerInfo)
  {
    match verifier
    case ByWaypoint(w) =>
      var genuine :| h.canonical(genuine) && NewEpochBoundary(crypto, genuine) == Success(w);
      assert genuine.WaypointFields() == li.ledgerInfo.WaypointFields();
    case ByEpoch(epochState) =>
      assert h.canonical(li.ledgerInfo);
  }

  lemma {:induction false} VerifiedChainIsGood(crypto: Crypto, h: History, verifier: Verifier, lis: LedgerInfos)
    requires Consistent(h) && Secure(crypto, h) && GoodVerifier(crypto, h, verifier)
    requires lis != [] && VerifyChain(crypto, verifier, lis).Success?
    ensures GoodEpochChange(h, lis[|lis| - 1].ledgerInfo)
    ensures GoodEpochChange(h, lis[0].ledgerInfo) && verifier.Verify(crypto, lis[0]).Success?
    ensures lis[|lis| - 1].ledgerInfo.Epoch() == lis[0].ledgerInfo.Epoch() + |lis| - 1
    decreases |lis|
  {
    VerifiedIsCommitted(crypto, h, verifier, lis[0]);
    if |lis| > 1 {
      var next := lis[0].ledgerInfo.NextEpochState().value;
      VerifiedChainIsGood(crypto, h, ByEpoch(next), lis[1..]);
      assert lis[1..][|lis[1..]| - 1] == lis[|lis| - 1];
    }
  }

  lemma {:induction false} SkipStaleSuffix(verifier: Verifier, lis: LedgerInfos)
    requires lis != [] && !verifier.IsStale(lis[|lis| - 1].ledgerInfo)
    ensures var rest := SkipStale(verifier, lis);
            rest != [] && rest[|rest| - 1] == lis[|lis| - 1] && !verifier.IsStale(rest[0].ledgerInfo)
  {
    if verifier.IsStale(lis[0].ledgerInfo) {
      assert lis[1..][|lis[1..]| - 1] == lis[|lis| - 1];
      SkipStaleSuffix(verifier, lis[1..]);
    }
  }

  /** Versions of committed epoch changes do not go down as epochs go up. */
  lemma EpochChangeVersions(h: History, earlier: LedgerInfo, later: LedgerInfo)
    requires Consistent(h) && Committed(h, earlier) && GoodEpochChange(h, later)
    requires earlier.Epoch() <= later.Epoch()
    ensures earlier.Version() <= later.Version()
  {
    var a :| h.canonical(a) && a.WaypointFields() == earlier.WaypointFields();
    var b :| h.canonical(b) && b.WaypointFields() == later.WaypointFields();
    assert b.EndsEpoch();
    assert a.Version() <= b.Version();
  }

  /** A proof that verifies ends in a committed epoch change that hands over a canonical set
      of a later epoch, at a version no lower than the client's. */
  lemma VerifiedProofIsGood(crypto: Crypto, h: History, state: TrustedState, lis: LedgerInfos)
    requires Consistent(h) && Secure(crypto, h) && Trusted(crypto, h, state)
    requires VerifyProof(crypto, state.AsVerifier(), lis).Success?
    ensures var last := VerifyProof(crypto, state.AsVerifier(), lis).value.ledgerInfo;
            && GoodEpochChange(h, last)
            && last.Version() >= state.Version()
            && (state.InEpoch? ==> last.Epoch() >= state.epochState.epoch)
  {
    var verifier := state.AsVerifier();
    SkipStaleSuffix(verifier, lis);
    var rest := SkipStale(verifier, lis);
    VerifiedChainIsGood(crypto, h, verifier, rest);
    var first, last := rest[0].ledgerInfo, rest[|rest| - 1].ledgerInfo;
    match state
    case AtEpochWaypoint(w) =>
      EpochChangeVersions(h, first, last);
    case InEpoch(w, epochState) =>
      AheadOfWaypoint(crypto, h, w, epochState.epoch, last);
  }

  /** An epoch change of this epoch or a later one is not behind a waypoint of the epoch. */
  lemma AheadOfWaypoint(crypto: Crypto, h: History, w: Waypoint, epoch: nat, last: LedgerInfo)
    requires Consistent(h) && CommitsInEpoch(crypto, h, w, epoch) && GoodEpochChange(h, last) && last.Epoch() >= epoch
    ensures last.Version() >= w.version
  {
    var li :| h.canonical(li) && InOrOpening(li, epoch) && w == NewAny(crypto, li);
    assert Committed(h, li);
    EpochChangeVersions(h, li, last);
  }

  // ---------- One ratchet ----------

  /** What a successful ratchet promises. */
  ghost predicate SafeChange(crypto: Crypto, h: History, state: TrustedState, change: TrustedStateChange) {
    match change
    case NoChange => state.InEpoch?
    case NewVersion(next) =>
      && Trusted(crypto, h, next)
      && state.InEpoch? && next.InEpoch? && next.epochState == state.epochState
      && next.Version() > state.Version()
    case NewEpoch(next, epochChange) =>
      && Trusted(crypto, h, next)
      && next.InEpoch? && next.Version() >= state.Version()
      && GoodEpochChange(h, epochChange.ledgerInfo) && next.epochState.epoch == epochChange.ledgerInfo.Epoch() + 1
      && (state.InEpoch? ==> next.epochState.epoch > state.epochState.epoch)
  }

  lemma ChosenIsCommitted(
    crypto: Crypto, h: History, epochChange: LedgerInfoWithSignatures, latest: LedgerInfoWithSignatures, more: bool)
    requires Consistent(h) && Secure(crypto, h) && GoodEpochChange(h, epochChange.ledgerInfo)
    requires ChooseVerified(crypto, epochChange.ledgerInfo.NextEpochState().value, epochChange, latest, more).Success?
    ensures var next := epochChange.ledgerInfo.NextEpochState().value;
            var chosen := ChooseVerified(crypto, next, epochChange, latest, more).value;
            && CommitsInEpoch(crypto, h, NewAny(crypto, chosen.ledgerInfo), next.epoch)
            && (chosen == latest || chosen == epochChange)
  {
    var next := epochChange.ledgerInfo.NextEpochState().value;
    var chosen := ChooseVerified(crypto, next, epochChange, latest, more).value;
    if chosen == epochChange {
      var genuine :| h.canonical(genuine) && genuine.WaypointFields() == epochChange.ledgerInfo.WaypointFields();
      assert InOrOpening(genuine, next.epoch) && NewAny(crypto, genuine) == NewAny(crypto, chosen.ledgerInfo);
    } else {
      assert h.canonical(latest.ledgerInfo);
      assert InOrOpening(latest.ledgerInfo, next.epoch);
    }
  }

  lemma RatchetEpochIsSafe(crypto: Crypto, h: History, state: TrustedState, response: Response)
    requires Consistent(h) && Secure(crypto, h) && Trusted(crypto, h, state)
    requires response.latest.ledgerInfo.Version() >= state.Version()
    requires RatchetEpoch(crypto, state, response.latest, response.proof).Success?
    ensures SafeChange(crypto, h, state, RatchetEpoch(crypto, state, response.latest, response.proof).value)
  {
    var proof := response.proof;
    VerifiedProofIsGood(crypto, h, state, proof.ledgerInfos);
    var epochChange := VerifyProof(crypto, state.AsVerifier(), proof.ledgerInfos).value;
    ChosenIsCommitted(crypto, h, epochChange, response.latest, proof.more);
  }

  /** Every successful ratchet from a trusted state lands in a trusted state, never lowers the
      version, and an epoch change from inside an epoch strictly raises the epoch. */
  lemma RatchetIsSafe(crypto: Crypto, h: History, state: TrustedState, response: Response)
    requires Consistent(h) && Secure(crypto, h) && Trusted(crypto, h, state)
    requires Ratchet(crypto, state, response.latest, response.proof).Success?
    ensures SafeChange(crypto, h, state, Ratchet(crypto, state, response.latest, response.proof).value)
  {
    var latest := response.latest;
    if state.AsVerifier().EpochChangeVerificationRequired(latest.ledgerInfo.commitInfo.NextBlockEpoch()) {
      RatchetEpochIsSafe(crypto, h, state, response);
    } else if NewAny(crypto, latest.ledgerInfo).version != state.Version() {
      assert h.canonical(latest.ledgerInfo);
      assert InOrOpening(latest.ledgerInfo, state.epochState.epoch);
    }
  }

  /** A success vouches for the latest ledger info: it commits to what a canonical one does, and
      the client is now at it. The one exception is a server that admits to have more epoch
      changes to give and names a ledger info of an epoch still ahead. */
  lemma SuccessVouches(crypto: Crypto, h: History, state: TrustedState, response: Response)
    requires Consistent(h) && Secure(crypto, h) && Trusted(crypto, h, state)
    requires Ratchet(crypto, state, response.latest, response.proof).Success?
    ensures var latest, next := response.latest.ledgerInfo, Step(crypto, state, response);
            if Committed(h, latest) && next.GetWaypoint() == NewAny(crypto, latest) then next.InEpoch?
            else response.proof.more && next.InEpoch? && latest.Epoch() > next.epochState.epoch
  {
    var latest, lis := response.latest, response.proof.ledgerInfos;
    if NeedsProof(state, latest) {
      VerifiedProofIsGood(crypto, h, state, lis);
      var epochChange := VerifyProof(crypto, state.AsVerifier(), lis).value;
      if epochChange != latest && latest.ledgerInfo.Epoch() == epochChange.ledgerInfo.Epoch() + 1 {
        assert h.canonical(latest.ledgerInfo);
      }
    } else if latest.ledgerInfo.Version() == state.Version() {
      var li :| h.canonical(li) && InOrOpening(li, state.epochState.epoch) && state.waypoint == NewAny(crypto, li);
      assert latest.ledgerInfo.WaypointFields() == li.WaypointFields();
    } else {
      assert h.canonical(latest.ledgerInfo);
    }
  }

  // ---------- Every run ----------

  /** No later state is behind an earlier one. */
  ghost predicate NotBehind(before: TrustedState, after: TrustedState) {
    && before.Version() <= after.Version()
    && (before.InEpoch? ==> after.InEpoch? && before.epochState.epoch <= after.epochState.epoch)
  }

  /** Safety over every run: against any sequence of responses, a client that starts from a
      genuine epoch waypoint, or any trusted state, is always in a trusted state, and neither
      its version nor its epoch ever goes down. */
  lemma {:induction false} EveryRunIsTrusted(crypto: Crypto, h: History, state: TrustedState, responses: seq<Response>)
    requires Consistent(h) && Secure(crypto, h) && Trusted(crypto, h, state)
    ensures Trusted(crypto, h, Run(crypto, state, responses))
    ensures NotBehind(state, Run(crypto, state, responses))
  {
    if responses != [] {
      var init, last := responses[..|responses| - 1], responses[|responses| - 1];
      EveryRunIsTrusted(crypto, h, state, init);
      var before := Run(crypto, state, init);
      if Ratchet(crypto, before, last.latest, last.proof).Success? {
        RatchetIsSafe(crypto, h, before, last);
      }
    }
  }

  lemma RunLast(crypto: Crypto, state: TrustedState, responses: seq<Response>, last: Response)
    ensures Run(crypto, state, responses + [last]) == Step(crypto, Run(crypto, state, responses), last)
  {
    assert (responses + [last])[..|responses + [last]| - 1] == responses;
  }

  lemma {:induction false} RunsCompose(crypto: Crypto, state: TrustedState, first: seq<Response>, second: seq<Response>)
    ensures Run(crypto, state, first + second) == Run(crypto, Run(crypto, state, first), second)
  {
    if second == [] {
      assert first + second == first;
    } else {
      var init, last := second[..|second| - 1], second[|second| - 1];
      RunsCompose(crypto, state, first, init);
      RunLast(crypto, state, first + init, last);
      RunLast(crypto, Run(crypto, state, first), init, last);
      assert second == init + [last] && first + second == (first + init) + [last];
    }
  }

  /** Along a run, every state is at or ahead of every earlier one. */
  lemma RunIsMonotone(crypto: Crypto, h: History, state: TrustedState, first: seq<Response>, second: seq<Response>)
    requires Consistent(h) && Secure(crypto, h) && Trusted(crypto, h, state)
    ensures NotBehind(Run(crypto, state, first), Run(crypto, state, first + second))
  {
    EveryRunIsTrusted(crypto, h, state, first);
    EveryRunIsTrusted(crypto, h, Run(crypto, state, first), second);
    RunsCompose(crypto, state, first, second);
  }

  /** Two clients of one chain that have reached the same epoch hold the same validator set,
      however they got there. */
  lemma ClientsAgree(
    crypto: Crypto, h: History, w1: Waypoint, w2: Waypoint, responses1: seq<Response>, responses2: seq<Response>)
    requires Consistent(h) && Secure(crypto, h)
    requires GenuineEpochWaypoint(crypto, h, w1) && GenuineEpochWaypoint(crypto, h, w2)
    ensures var s1 := Run(crypto, AtEpochWaypoint(w1), responses1);
            var s2 := Run(crypto, AtEpochWaypoint(w2), responses2);
            s1.InEpoch? && s2.InEpoch? && s1.epochState.epoch == s2.epochState.epoch ==> s1.epochState == s2.epochState
  {
    EveryRunIsTrusted(crypto, h, AtEpochWaypoint(w1), responses1);
    EveryRunIsTrusted(crypto, h, AtEpochWaypoint(w2), responses2);
  }

  // ---------- Genuine proofs are accepted ----------

  /** `lis` are the signed endings of the epochs from `epoch` on. */
  ghost predicate GenuineChain(crypto: Crypto, h: History, epoch: nat, lis: LedgerInfos) {
    forall i :: 0 <= i < |lis| ==>
      && h.canonical(lis[i].ledgerInfo)
      && lis[i].ledgerInfo.EndsEpoch()
      && lis[i].ledgerInfo.Epoch() == epoch + i
      && crypto.check(h.states(epoch + i).verifier, lis[i].ledgerInfo, lis[i].signatures).Success?
  }

  lemma {:induction false} GenuineChainVerifies(crypto: Crypto, h: History, epoch: nat, lis: LedgerInfos)
    requires Consistent(h) && GenuineChain(crypto, h, epoch, lis)
    ensures VerifyChain(crypto, ByEpoch(h.states(epoch)), lis).Success?
    decreases |lis|
  {
    if lis != [] {
      assert GenuineChain(crypto, h, epoch + 1, lis[1..]) by {
        assert forall i :: 0 <= i < |lis[1..]| ==> lis[1..][i] == lis[i + 1];
      }
      GenuineChainVerifies(crypto, h, epoch + 1, lis[1..]);
      assert lis[0].ledgerInfo.NextEpochState() == Some(h.states(epoch + 1));
    }
  }

  /** The clients a genuine chain serves from its `i`-th ending on: those in the epoch this
      ending closes, and those with a waypoint on it, provided that all endings in front of it
      have lower versions. */
  ghost predicate Serves(crypto: Crypto, h: History, epoch: nat, lis: LedgerInfos, i: nat, state: TrustedState)
    requires i < |lis|
  {
    match state
    case AtEpochWaypoint(w) =>
      && w == NewAny(crypto, lis[i].ledgerInfo)
      && forall j :: 0 <= j < i ==> lis[j].ledgerInfo.Version() < w.version
    case InEpoch(_, epochState) => epochState == h.states(epoch + i)
  }

  lemma GenuineSuffix(crypto: Crypto, h: History, epoch: nat, lis: LedgerInfos, i: nat, state: TrustedState)
    requires GenuineChain(crypto, h, epoch, lis) && i < |lis| && Serves(crypto, h, epoch, lis, i, state)
    ensures GenuineChain(crypto, h, epoch + i, lis[i..]) && Serves(crypto, h, epoch + i, lis[i..], 0, state)
  {
    assert forall k :: 0 <= k < |lis| - i ==> lis[i..][k] == lis[i + k];
  }

  /** A genuine chain that begins where the client is. */
  lemma GenuineProofFromHere(crypto: Crypto, h: History, epoch: nat, lis: LedgerInfos, state: TrustedState)
    requires Consistent(h) && lis != [] && GenuineChain(crypto, h, epoch, lis) && Serves(crypto, h, epoch, lis, 0, state)
    ensures VerifyProof(crypto, state.AsVerifier(), lis) == Success(lis[|lis| - 1])
  {
    var verifier := state.AsVerifier();
    var first, last := lis[0].ledgerInfo, lis[|lis| - 1].ledgerInfo;
    assert first.Version() <= last.Version();
    SkipNothing(verifier, lis);
    GenuineChainVerifies(crypto, h, epoch, lis);
  }

  lemma EarlierEndingsAreStale(crypto: Crypto, h: History, epoch: nat, lis: LedgerInfos, i: nat, state: TrustedState)
    requires Consistent(h) && GenuineChain(crypto, h, epoch, lis) && i < |lis| && Serves(crypto, h, epoch, lis, i, state)
    ensures AllStale(state.AsVerifier(), lis[..i])
  {
    assert forall j :: 0 <= j < i ==> lis[..i][j] == lis[j];
  }

  /** A genuine chain that reaches past the client is accepted, however far back it begins: the
      endings the client is past are skipped. */
  lemma GenuineProofVerifies(crypto: Crypto, h: History, epoch: nat, lis: LedgerInfos, i: nat, state: TrustedState)
    requires Consistent(h) && GenuineChain(crypto, h, epoch, lis) && i < |lis| && Serves(crypto, h, epoch, lis, i, state)
    ensures VerifyProof(crypto, state.AsVerifier(), lis) == Success(lis[|lis| - 1])
  {
    GenuineSuffix(crypto, h, epoch, lis, i, state);
    EarlierEndingsAreStale(crypto, h, epoch, lis, i, state);
    GenuineProofFromHere(crypto, h, epoch + i, lis[i..], state);
    SuffixDecides(crypto, state.AsVerifier(), lis, i);
  }

  lemma SuffixDecides(crypto: Crypto, verifier: Verifier, lis: LedgerInfos, i: nat)
    requires i < |lis| && AllStale(verifier, lis[..i])
    requires VerifyProof(crypto, verifier, lis[i..]).Success?
    ensures VerifyProof(crypto, verifier, lis) == Success(lis[|lis| - 1])
  {
    StalePrefixIgnored(crypto, verifier, lis[..i], lis[i..]);
    assert lis == lis[..i] + lis[i..];
  }

  /** A waypoint needs the version condition: a genuine chain through the waypoint's ledger info
      is accepted exactly when no ending in front of it has the same version. */
  lemma WaypointProofExactly(crypto: Crypto, h: History, epoch: nat, lis: LedgerInfos, i: nat)
    requires Consistent(h) && Secure(crypto, h) && GenuineChain(crypto, h, epoch, lis) && i < |lis|
    ensures var w := NewAny(crypto, lis[i].ledgerInfo);
            VerifyProof(crypto, ByWaypoint(w), lis).Success? <==>
            (forall j :: 0 <= j < i ==> lis[j].ledgerInfo.Version() != w.version)
  {
    var w := NewAny(crypto, lis[i].ledgerInfo);
    EndingVersions(crypto, h, epoch, lis, i);
    if forall j :: 0 <= j < i ==> lis[j].ledgerInfo.Version() != w.version {
      GenuineProofVerifies(crypto, h, epoch, lis, i, AtEpochWaypoint(w));
    } else {
      var j := FirstFresh(ByWaypoint(w), lis, i);
      assert lis[j].ledgerInfo.Epoch() != lis[i].ledgerInfo.Epoch();
      WrongStartIsRefused(crypto, h, lis, i, j);
    }
  }

  lemma EndingVersions(crypto: Crypto, h: History, epoch: nat, lis: LedgerInfos, i: nat)
    requires Consistent(h) && GenuineChain(crypto, h, epoch, lis) && i < |lis|
    ensures forall j :: 0 <= j < i ==> lis[j].ledgerInfo.Version() <= lis[i].ledgerInfo.Version()
  {
  }

  lemma WrongStartIsRefused(crypto: Crypto, h: History, lis: LedgerInfos, i: nat, j: nat)
    requires Secure(crypto, h) && j < i < |lis| && h.canonical(lis[i].ledgerInfo)
    requires lis[j].ledgerInfo.Epoch() != lis[i].ledgerInfo.Epoch()
    requires var w := NewAny(crypto, lis[i].ledgerInfo);
             !ByWaypoint(w).IsStale(lis[j].ledgerInfo) && AllStale(ByWaypoint(w), lis[..j])
    ensures VerifyProof(crypto, ByWaypoint(NewAny(crypto, lis[i].ledgerInfo)), lis).Failure?
  {
    var verifier := ByWaypoint(NewAny(crypto, lis[i].ledgerInfo));
    SkipPrefix(verifier, lis[..j], lis[j..]);
    SkipNothing(verifier, lis[j..]);
    assert lis == lis[..j] + lis[j..];
    assert lis[j].ledgerInfo.WaypointFields() != lis[i].ledgerInfo.WaypointFields();
    assert verifier.Verify(crypto, lis[j..][0]).Failure?;
  }

  lemma {:induction false} FirstFresh(verifier: Verifier, lis: LedgerInfos, i: nat) returns (j: nat)
    requires i <= |lis| && exists k :: 0 <= k < i && !verifier.IsStale(lis[k].ledgerInfo)
    ensures j < i && !verifier.IsStale(lis[j].ledgerInfo) && AllStale(verifier, lis[..j])
  {
    if exists k :: 0 <= k < i - 1 && !verifier.IsStale(lis[k].ledgerInfo) {
      j := FirstFresh(verifier, lis, i - 1);
    } else {
      j := i - 1;
    }
  }

  /** The outcome of every ratchet on genuine endings that reach past the client. */
  lemma GenuineEndingsDecide(
    crypto: Crypto, h: History, epoch: nat, lis: LedgerInfos, i: nat, latest: LedgerInfoWithSignatures, more: bool,
    state: TrustedState)
    requires Consistent(h)
    requires GenuineChain(crypto, h, epoch, lis) && i < |lis| && Serves(crypto, h, epoch, lis, i, state)
    requires latest.ledgerInfo.Version() >= state.Version() && NeedsProof(state, latest)
    ensures Ratchet(crypto, state, latest, EpochChangeProof(lis, more))
         == Answer(crypto, h.states(epoch + |lis|), lis[|lis| - 1], latest, more)
  {
    GenuineProofVerifies(crypto, h, epoch, lis, i, state);
    VerifiedProofDecides(crypto, state, latest, EpochChangeProof(lis, more));
    assert lis[|lis| - 1].ledgerInfo.NextEpochState() == Some(h.states(epoch + |lis|));
  }

  /** A client that is given the genuine epoch endings and a signed ledger info of the epoch
      after them ends up in that epoch, at that ledger info. */
  lemma GenuineResponseIsAdopted(
    crypto: Crypto, h: History, epoch: nat, lis: LedgerInfos, i: nat, latest: LedgerInfoWithSignatures, more: bool,
    state: TrustedState)
    requires Consistent(h) && Secure(crypto, h)
    requires GenuineChain(crypto, h, epoch, lis) && i < |lis| && Serves(crypto, h, epoch, lis, i, state)
    requires latest.ledgerInfo.Epoch() == epoch + |lis| && latest.ledgerInfo.Version() >= state.Version()
    requires crypto.check(h.states(epoch + |lis|).verifier, latest.ledgerInfo, latest.signatures).Success?
    ensures Step(crypto, state, Response(latest, EpochChangeProof(lis, more)))
         == InEpoch(NewAny(crypto, latest.ledgerInfo), h.states(epoch + |lis|))
  {
    assert h.canonical(latest.ledgerInfo);
    assert latest.ledgerInfo.commitInfo.NextBlockEpoch() >= epoch + |lis|;
    GenuineEndingsDecide(crypto, h, epoch, lis, i, latest, more, state);
  }

  /** If the last genuine ending is itself the latest ledger info, the client enters the epoch
      it opens. */
  lemma GenuineEndingIsAdopted(
    crypto: Crypto, h: History, epoch: nat, lis: LedgerInfos, i: nat, more: bool, state: TrustedState)
    requires Consistent(h)
    requires GenuineChain(crypto, h, epoch, lis) && i < |lis| && Serves(crypto, h, epoch, lis, i, state)
    requires lis[|lis| - 1].ledgerInfo.Version() >= state.Version()
    ensures var last := lis[|lis| - 1];
            Step(crypto, state, Response(last, EpochChangeProof(lis, more)))
            == InEpoch(NewAny(crypto, last.ledgerInfo), h.states(epoch + |lis|))
  {
    var last := lis[|lis| - 1];
    assert last.ledgerInfo.NextEpochState() == Some(h.states(epoch + |lis|));
    GenuineEndingsDecide(crypto, h, epoch, lis, i, last, more, state);
  }

  /** Genuine endings that stop short of the latest ledger info's epoch take the client as far
      as they reach if the server admits that there is more, and are refused otherwise. */
  lemma GenuinePartialProof(
    crypto: Crypto, h: History, epoch: nat, lis: LedgerInfos, i: nat, latest: LedgerInfoWithSignatures, more: bool,
    state: TrustedState)
    requires Consistent(h)
    requires GenuineChain(crypto, h, epoch, lis) && i < |lis| && Serves(crypto, h, epoch, lis, i, state)
    requires latest.ledgerInfo.Epoch() > epoch + |lis| && latest.ledgerInfo.Version() >= state.Version()
    requires latest.ledgerInfo.EndsEpoch() ==> latest.ledgerInfo.NextEpochState().value.epoch > latest.ledgerInfo.Epoch()
    ensures var last := lis[|lis| - 1];
            Ratchet(crypto, state, latest, EpochChangeProof(lis, more))
            == if more then Success(NewEpoch(InEpoch(NewAny(crypto, last.ledgerInfo), h.states(epoch + |lis|)), last))
               else Failure(InconsistentProof)
  {
    assert latest.ledgerInfo.commitInfo.NextBlockEpoch() > epoch + |lis|;
    assert latest != lis[|lis| - 1];
    GenuineEndingsDecide(crypto, h, epoch, lis, i, latest, more, state);
  }

  /** A waypoint on a canonical ledger info is convinced exactly by ledger infos that commit to
      the same fields. */
  lemma WaypointConvincedExactly(crypto: Crypto, h: History, genuine: LedgerInfo, li: LedgerInfoWithSignatures)
    requires Secure(crypto, h) && h.canonical(genuine)
    ensures ByWaypoint(NewAny(crypto, genuine)).Verify(crypto, li)
         == if li.ledgerInfo.Version() != genuine.Version() then Failure(WaypointVersionMismatch)
            else if li.ledgerInfo.WaypointFields() != genuine.WaypointFields() then Failure(WaypointValueMismatch)
            else Success(())
  {
  }

  /** The validator set of an epoch is convinced exactly by ledger infos of that epoch which it
      signed. */
  lemma EpochConvincedExactly(crypto: Crypto, h: History, epoch: nat, li: LedgerInfoWithSignatures)
    requires Consistent(h)
    ensures var convinced := ByEpoch(h.states(epoch)).Verify(crypto, li);
            && (li.ledgerInfo.Epoch() != epoch ==> convinced == Failure(UnexpectedEpoch))
            && (li.ledgerInfo.Epoch() == epoch ==>
                  match crypto.check(h.states(epoch).verifier, li.ledgerInfo, li.signatures)
                  case Success(_) => convinced == Success(())
                  case Failure(cause) => convinced == Failure(BadSignature(cause)))
  {
  }

  /** Inside an epoch no proof is needed: a signed, newer ledger info of the epoch is adopted,
      and one at the trusted version is accepted without a change exactly when it commits to
      the same fields. */
  lemma WithinEpochExactly(
    crypto: Crypto, waypoint: Waypoint, epochState: EpochState, latest: LedgerInfoWithSignatures, proof: EpochChangeProof)
    requires !NeedsProof(InEpoch(waypoint, epochState), latest)
    ensures var state := InEpoch(waypoint, epochState);
            var result := Ratchet(crypto, state, latest, proof);
            var version := latest.ledgerInfo.Version();
            && (version < waypoint.version ==> result == Failure(StaleTarget))
            && (version == waypoint.version ==>
                  result == if NewAny(crypto, latest.ledgerInfo) == waypoint then Success(NoChange) else Failure(MismatchWithVerifiedState))
            && (version > waypoint.version ==>
                  result == if latest.ledgerInfo.Epoch() != epochState.epoch then Failure(UnexpectedEpoch)
                            else match crypto.check(epochState.verifier, latest.ledgerInfo, latest.signatures)
                              case Failure(cause) => Failure(BadSignature(cause))
                              case Success(_) => Success(NewVersion(InEpoch(NewAny(crypto, latest.ledgerInfo), epochState))))
  {
  }

  // ---------- From honest validators to security ----------

  /** Who is honest (by epoch and position), and what honest validators signed. */
  datatype Signers = Signers(honest: (nat, nat) -> bool, signed: (nat, nat, LedgerInfo) -> bool)

  ghost predicate HoldsQuorum(v: ValidatorVerifier, mask: set<nat>) {
    InRange(v, mask) && mask != {} && Power(v.infos, mask) >= v.quorumVotingPower
  }

  /** Every quorum of an epoch has an honest member. */
  ghost predicate HonestQuorums(h: History, signers: Signers) {
    forall e: nat, mask: set<nat> :: HoldsQuorum(h.states(e).verifier, mask) ==> exists i :: i in mask && signers.honest(e, i)
  }

  /** A multi-signature that is accepted carries the signature of each honest validator in its mask. */
  ghost predicate Unforgeable(scheme: Scheme<LedgerInfo>, h: History, signers: Signers) {
    forall e: nat, li: LedgerInfo, multi: AggregateSignature, i: nat ::
      VerifyMultiSpec(h.states(e).verifier, scheme, li, multi).Success? && i in multi.bitmask.ones &&
      signers.honest(e, i) ==>
        signers.signed(e, i, li)
  }

  /** Honest validators of an epoch sign only canonical ledger infos of that epoch. */
  ghost predicate HonestSignCanonical(h: History, signers: Signers) {
    forall e: nat, i: nat, li: LedgerInfo ::
      signers.honest(e, i) && signers.signed(e, i, li) && li.Epoch() == e ==> h.canonical(li)
  }

  ghost predicate CollisionFree(hash: WaypointFields -> HashValue, h: History) {
    forall li: LedgerInfo, other: WaypointFields ::
      h.canonical(li) && hash(other) == hash(li.WaypointFields()) ==> other == li.WaypointFields()
  }

  ghost predicate ByzantineFaultTolerant(
    scheme: Scheme<LedgerInfo>, hash: WaypointFields -> HashValue, h: History, signers: Signers)
  {
    && (forall e :: WellFormed(h.states(e).verifier))
    && HonestQuorums(h, signers)
    && Unforgeable(scheme, h, signers)
    && HonestSignCanonical(h, signers)
    && CollisionFree(hash, h)
  }

  lemma QuorumSignedIsCanonical(
    scheme: Scheme<LedgerInfo>, hash: WaypointFields -> HashValue, h: History, signers: Signers,
    li: LedgerInfo, multi: AggregateSignature)
    requires ByzantineFaultTolerant(scheme, hash, h, signers)
    requires VerifyMultiSpec(h.states(li.Epoch()).verifier, scheme, li, multi).Success?
    ensures h.canonical(li)
  {
    var e := li.Epoch();
    AcceptedExactly(h.states(e).verifier, scheme, li, multi);
    assert HoldsQuorum(h.states(e).verifier, multi.bitmask.ones);
    var i :| i in multi.bitmask.ones && signers.honest(e, i);
    assert signers.signed(e, i, li);
  }

  /** What a deployed client checks: the mask fits the validator set, its validators hold a quorum,
      and their summed key validates the signature on the ledger info. */
  lemma DeployedChecksExactly(
    scheme: Scheme<LedgerInfo>, hash: WaypointFields -> HashValue, v: ValidatorVerifier, li: LedgerInfo, multi: AggregateSignature)
    requires Distinct(v.Addresses())
    ensures MaskFits(v, multi.bitmask) ==> InRange(v, multi.bitmask.ones)
    ensures Deployed(scheme, hash).check(v, li, multi).Success? <==>
            && MaskFits(v, multi.bitmask) && multi.bitmask.ones != {} && multi.sig.Some?
            && Power(v.infos, multi.bitmask.ones) >= v.quorumVotingPower
            && scheme.valid(scheme.sumKeys(multiset(KeysOf(InfosAt(v, Ascending(multi.bitmask.ones))))), li, multi.sig.value)
  {
    AcceptedExactly(v, scheme, li, multi);
  }

  /** The signature and hash assumptions give the light client all the security it needs. */
  lemma DeployedIsSecure(scheme: Scheme<LedgerInfo>, hash: WaypointFields -> HashValue, h: History, signers: Signers)
    requires ByzantineFaultTolerant(scheme, hash, h, signers)
    ensures Secure(Deployed(scheme, hash), h)
  {
    var crypto := Deployed(scheme, hash);
    forall li: LedgerInfo, multi: AggregateSignature | crypto.check(h.states(li.Epoch()).verifier, li, multi).Success?
      ensures h.canonical(li)
    {
      QuorumSignedIsCanonical(scheme, hash, h, signers, li, multi);
    }
  }

  /** Faulty validators holding less than a third of every epoch's power leave an honest
      member in every quorum. */
  lemma FaultyMinorityIsHarmless(h: History, faulty: nat -> set<nat>, signers: Signers)
    requires forall e :: WellFormed(h.states(e).verifier)
    requires forall e :: h.states(e).verifier.infos != [] ==>
               3 * Power(h.states(e).verifier.infos, faulty(e)) < h.states(e).verifier.TotalVotingPower()
    requires forall e: nat, i: nat :: i !in faulty(e) ==> signers.honest(e, i)
    ensures HonestQuorums(h, signers)
  {
    forall e: nat, mask: set<nat> | HoldsQuorum(h.states(e).verifier, mask)
      ensures exists i :: i in mask && signers.honest(e, i)
    {
      var v := h.states(e).verifier;
      InRangeExactly(v, mask);
      var any :| any in mask;
      assert v.infos != [];
      var p := FaultBoundLeavesHonestSigner(v, faulty(e), mask);
      assert p !in faulty(e);
    }
  }

  /** The safety theorem with nothing left abstract but the scheme and the hash: against any
      responses, a client started from a genuine epoch waypoint holds, once in an epoch, the
      canonical validator set of that epoch and a waypoint on a canonical ledger info. */
  lemma LightClientSafe(
    scheme: Scheme<LedgerInfo>, hash: WaypointFields -> HashValue, h: History, signers: Signers,
    w: Waypoint, responses: seq<Response>)
    requires Consistent(h) && ByzantineFaultTolerant(scheme, hash, h, signers)
    requires GenuineEpochWaypoint(Deployed(scheme, hash), h, w)
    ensures var final := Run(Deployed(scheme, hash), AtEpochWaypoint(w), responses);
            && Trusted(Deployed(scheme, hash), h, final)
            && final.Version() >= w.version
  {
    DeployedIsSecure(scheme, hash, h, signers);
    EveryRunIsTrusted(Deployed(scheme, hash), h, AtEpochWaypoint(w), responses);
  }
}
