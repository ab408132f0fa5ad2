/** The assumptions of the light-client theorems hold together, and under them a client does
    move: a two-block chain with one validator. */
module LightClientExample {
  import opened Prelude
  import opened Bls
  import opened Validators
  import opened Quorums
  import opened Ledger
  import opened EpochChange
  import opened TrustedStates
  import opened LightClientSafety

  const SOLE: ValidatorVerifier := NewVerifier([ValidatorConsensusInfo(7, PublicKey(1), 1)])
  const GENESIS: LedgerInfo := LedgerInfo(BlockInfo(0, 0, 0, 10, 0, 0, Some(EpochState(1, SOLE))), 0)
  const SECOND: LedgerInfo := LedgerInfo(BlockInfo(1, 1, 5, 11, 1, 3, None), 0)
  const SIGNED: AggregateSignature := AggregateSignature(BitVec(1, {0}), Some(Signature(0)))

  predicate IsCommitted(li: LedgerInfo) {
    li == GENESIS || li == SECOND
  }

  /** A scheme in which the one key signs committed ledger infos and nothing else. */
  function ExampleScheme(): Scheme<LedgerInfo> {
    Scheme((key: PublicKey, li: LedgerInfo, sig: Signature) => IsCommitted(li),
           (keys: multiset<PublicKey>) => PublicKey(1),
           (sigs: multiset<Signature>) => Signature(0))
  }

  function ExampleHash(): WaypointFields -> HashValue {
    (f: WaypointFields) => if f == GENESIS.WaypointFields() then 1 else if f == SECOND.WaypointFields() then 2 else 0
  }

  function ExampleHistory(): History {
    History((e: nat) => EpochState(e, SOLE), (li: LedgerInfo) => IsCommitted(li))
  }

  function ExampleSigners(): Signers {
    Signers((e: nat, i: nat) => true, (e: nat, i: nat, li: LedgerInfo) => IsCommitted(li))
  }

  lemma SoleIsWellFormed()
    ensures WellFormed(SOLE) && SOLE.quorumVotingPower == 1 && SOLE.TotalVotingPower() == 1
    ensures |SOLE.infos| == 1 && Power(SOLE.infos, {0}) == 1
  {
    var infos := [ValidatorConsensusInfo(7, PublicKey(1), 1)];
    assert infos[..0] == [];
    assert TotalPower(infos) == 1;
    assert Power(infos, {0}) == 1;
  }

  lemma SignedIsAccepted(li: LedgerInfo)
    requires IsCommitted(li)
    ensures VerifyMultiSpec(SOLE, ExampleScheme(), li, SIGNED).Success?
  {
    SoleIsWellFormed();
    InRangeExactly(SOLE, {0});
    assert RequiredBuckets(1) == 1;
    AcceptedExactly(SOLE, ExampleScheme(), li, SIGNED);
  }

  lemma AcceptedIsCommitted(li: LedgerInfo, multi: AggregateSignature)
    requires VerifyMultiSpec(SOLE, ExampleScheme(), li, multi).Success?
    ensures IsCommitted(li)
  {
    SoleIsWellFormed();
    AcceptedExactly(SOLE, ExampleScheme(), li, multi);
  }

  lemma ExampleTolerant()
    ensures Consistent(ExampleHistory())
    ensures ByzantineFaultTolerant(ExampleScheme(), ExampleHash(), ExampleHistory(), ExampleSigners())
  {
    var scheme, h, signers := ExampleScheme(), ExampleHistory(), ExampleSigners();
    SoleIsWellFormed();
    forall e: nat, mask: set<nat> | HoldsQuorum(h.states(e).verifier, mask)
      ensures exists i :: i in mask && signers.honest(e, i)
    {
      var i :| i in mask;
      assert signers.honest(e, i);
    }
    forall e: nat, li: LedgerInfo, multi: AggregateSignature, i: nat |
      VerifyMultiSpec(h.states(e).verifier, scheme, li, multi).Success?
      ensures signers.signed(e, i, li)
    {
      AcceptedIsCommitted(li, multi);
    }
  }

  lemma GenesisIsGenuine(crypto: Crypto)
    ensures GenuineEpochWaypoint(crypto, ExampleHistory(), NewAny(crypto, GENESIS))
  {
    assert ExampleHistory().canonical(GENESIS) && NewEpochBoundary(crypto, GENESIS) == Success(NewAny(crypto, GENESIS));
  }

  lemma GenesisIsChain(crypto: Crypto)
    requires crypto.check(SOLE, GENESIS, SIGNED).Success?
    ensures GenuineChain(crypto, ExampleHistory(), 0, [LedgerInfoWithSignatures(GENESIS, SIGNED)])
  {
  }

  /** From the genesis waypoint the client reaches the second block in epoch 1. */
  lemma ClientMoves()
    ensures var crypto := Deployed(ExampleScheme(), ExampleHash());
            var response := Response(LedgerInfoWithSignatures(SECOND, SIGNED),
                                     EpochChangeProof([LedgerInfoWithSignatures(GENESIS, SIGNED)], false));
            && GenuineEpochWaypoint(crypto, ExampleHistory(), NewAny(crypto, GENESIS))
            && Step(crypto, AtEpochWaypoint(NewAny(crypto, GENESIS)), response)
               == InEpoch(NewAny(crypto, SECOND), EpochState(1, SOLE))
  {
    var crypto, h := Deployed(ExampleScheme(), ExampleHash()), ExampleHistory();
    ExampleTolerant();
    DeployedIsSecure(ExampleScheme(), ExampleHash(), h, ExampleSigners());
    SignedIsAccepted(GENESIS);
    SignedIsAccepted(SECOND);
    GenesisIsGenuine(crypto);
    GenesisIsChain(crypto);
    GenuineResponseIsAdopted(
      crypto, h, 0, [LedgerInfoWithSignatures(GENESIS, SIGNED)], 0, LedgerInfoWithSignatures(SECOND, SIGNED), false,
      AtEpochWaypoint(NewAny(crypto, GENESIS)));
  }
}
