/** What weighted quorums and signer masks guarantee. */
module Quorums {
  import opened Prelude
  import opened Bls
  import opened Validators

  // ---------- Power as a measure on positions ----------

  lemma {:induction false} PowerInclusionExclusion(infos: seq<ValidatorConsensusInfo>, a: set<nat>, b: set<nat>)
    ensures Power(infos, a) + Power(infos, b) == Power(infos, a + b) + Power(infos, a * b)
  {
    if infos != [] {
      PowerInclusionExclusion(infos[..|infos| - 1], a, b);
    }
  }

  lemma {:induction false} PowerWithinTotal(infos: seq<ValidatorConsensusInfo>, mask: set<nat>)
    ensures Power(infos, mask) <= TotalPower(infos)
    ensures (forall i :: 0 <= i < |infos| ==> i in mask) ==> Power(infos, mask) == TotalPower(infos)
  {
    if infos != [] {
      PowerWithinTotal(infos[..|infos| - 1], mask);
    }
  }

  lemma {:induction false} PowerOfSingleton(infos: seq<ValidatorConsensusInfo>, i: nat)
    ensures Power(infos, {i}) == if i < |infos| then infos[i].votingPower else 0
  {
    if infos != [] {
      PowerOfSingleton(infos[..|infos| - 1], i);
    }
  }

  lemma {:induction false} PowerOfNothing(infos: seq<ValidatorConsensusInfo>)
    ensures Power(infos, {}) == 0
  {
    if infos != [] {
      PowerOfNothing(infos[..|infos| - 1]);
    }
  }

  lemma PowerInsert(infos: seq<ValidatorConsensusInfo>, mask: set<nat>, i: nat)
    requires i < |infos| && i !in mask
    ensures Power(infos, mask + {i}) == Power(infos, mask) + infos[i].votingPower
  {
    PowerInclusionExclusion(infos, mask, {i});
    PowerOfSingleton(infos, i);
    PowerOfNothing(infos);
    assert mask * {i} == {};
  }

  /** A mask of positive power names a validator of positive power. */
  lemma {:induction false} PositivePowerWitness(infos: seq<ValidatorConsensusInfo>, mask: set<nat>) returns (i: nat)
    requires Power(infos, mask) > 0
    ensures i < |infos| && i in mask && infos[i].votingPower > 0
  {
    var last := |infos| - 1;
    if last in mask && infos[last].votingPower > 0 {
      i := last;
    } else {
      i := PositivePowerWitness(infos[..last], mask);
    }
  }

  // ---------- Addresses and positions ----------

  lemma IndexInverse(v: ValidatorVerifier, i: nat)
    requires Distinct(v.Addresses()) && i < |v.infos|
    ensures v.infos[i].address in v.AddressIndex() && v.AddressIndex()[v.infos[i].address] == i
  {
    var j := v.AddressIndex()[v.infos[i].address];
    assert v.Addresses()[j] == v.Addresses()[i];
  }

  ghost function PositionSet(v: ValidatorVerifier, authors: seq<Address>): set<nat>
    requires AllKnown(v, authors)
  {
    set p | p in Positions(v, authors)
  }

  lemma PositionsDistinct(v: ValidatorVerifier, authors: seq<Address>)
    requires AllKnown(v, authors) && Distinct(authors)
    ensures Distinct(Positions(v, authors))
  {
    var positions := Positions(v, authors);
    assert forall k :: 0 <= k < |authors| ==> v.infos[positions[k]].address == authors[k];
  }

  /** Power summed by address is power summed over set bits: nobody is counted twice. */
  lemma {:induction false} PowerByAddressIsPowerByBit(v: ValidatorVerifier, authors: seq<Address>)
    requires AllKnown(v, authors) && Distinct(authors)
    ensures PowerOfAuthors(v, authors) == Power(v.infos, PositionSet(v, authors))
  {
    if authors == [] {
      assert PositionSet(v, authors) == {};
      PowerOfNothing(v.infos);
    } else {
      var last := |authors| - 1;
      var init := authors[..last];
      var p := v.AddressIndex()[authors[last]];
      PowerByAddressIsPowerByBit(v, init);
      assert Positions(v, authors) == Positions(v, init) + [p];
      assert PositionSet(v, authors) == PositionSet(v, init) + {p};
      PositionsDistinct(v, authors);
      assert Positions(v, authors)[last] == p;
      assert forall k :: 0 <= k < last ==> Positions(v, init)[k] == Positions(v, authors)[k] != p;
      PowerInsert(v.infos, PositionSet(v, init), p);
    }
  }

  // ---------- Decoding a mask ----------

  /** Every position the mask sets is a validator's. */
  ghost predicate InRange(v: ValidatorVerifier, mask: set<nat>) {
    InBounds(v, Ascending(mask))
  }

  lemma InRangeExactly(v: ValidatorVerifier, mask: set<nat>)
    ensures InRange(v, mask) <==> forall p :: p in mask ==> p < |v.infos|
  {
    var positions := Ascending(mask);
    if forall p :: p in mask ==> p < |v.infos| {
      assert forall i :: 0 <= i < |positions| ==> positions[i] in mask;
    }
    if InRange(v, mask) {
      forall p | p in mask ensures p < |v.infos| {
        assert p in positions;
      }
    }
  }

  /** The authors a mask denotes, in position order. */
  ghost function Decoded(v: ValidatorVerifier, mask: set<nat>): seq<Address>
    requires InRange(v, mask)
  {
    AddressesOf(InfosAt(v, Ascending(mask)))
  }

  lemma DecodedKnown(v: ValidatorVerifier, mask: set<nat>)
    requires InRange(v, mask) && Distinct(v.Addresses())
    ensures AllKnown(v, Decoded(v, mask)) && Distinct(Decoded(v, mask))
    ensures PositionSet(v, Decoded(v, mask)) == mask
  {
    var positions, authors := Ascending(mask), Decoded(v, mask);
    forall i | 0 <= i < |authors|
      ensures authors[i] in v.AddressIndex() && v.AddressIndex()[authors[i]] == positions[i]
    {
      IndexInverse(v, positions[i]);
    }
    assert Positions(v, authors) == positions;
    assert forall i, j :: 0 <= i < j < |authors| ==> positions[i] != positions[j];
  }

  lemma LastBitBounds(mask: BitVec, n: nat)
    ensures CheckNumOfVoters(n, mask).Success? <==>
            mask.buckets == RequiredBuckets(n) && forall p :: p in mask.ones ==> p < n
  {
  }

  /** The mask has the buckets and the positions of a set of this size, the size being cut to
      16 bits. */
  ghost predicate MaskFits(v: ValidatorVerifier, mask: BitVec) {
    && mask.buckets == RequiredBuckets(|v.infos| % 0x1_0000)
    && forall p :: p in mask.ones ==> p < |v.infos| % 0x1_0000
  }

  /** `verify_multi_signatures` accepts exactly the fitting masks that hold a quorum and whose
      summed key validates a non-empty signature. */
  lemma AcceptedExactly<M>(v: ValidatorVerifier, scheme: Scheme<M>, message: M, multi: AggregateSignature)
    requires Distinct(v.Addresses())
    ensures MaskFits(v, multi.bitmask) ==> InRange(v, multi.bitmask.ones)
    ensures VerifyMultiSpec(v, scheme, message, multi).Success? <==>
            && MaskFits(v, multi.bitmask)
            && multi.bitmask.ones != {}
            && Power(v.infos, multi.bitmask.ones) >= v.quorumVotingPower
            && multi.sig.Some?
            && scheme.valid(scheme.sumKeys(multiset(KeysOf(InfosAt(v, Ascending(multi.bitmask.ones))))), message, multi.sig.value)
  {
    var mask := multi.bitmask.ones;
    CountCheckExactly(v, multi.bitmask);
    if MaskFits(v, multi.bitmask) {
      SignersAcceptedExactly(v, scheme, message, mask, multi.sig);
    }
  }

  lemma CountCheckExactly(v: ValidatorVerifier, mask: BitVec)
    ensures CheckNumOfVoters(AsU16(|v.infos|), mask).Success? <==> MaskFits(v, mask)
    ensures MaskFits(v, mask) ==> InRange(v, mask.ones)
    ensures |v.infos| < U16_LIMIT ==>
              (MaskFits(v, mask) <==> mask.buckets == RequiredBuckets(|v.infos|) && InRange(v, mask.ones))
  {
    LastBitBounds(mask, |v.infos| % 0x1_0000);
    InRangeExactly(v, mask.ones);
  }

  lemma SignersAcceptedExactly<M>(v: ValidatorVerifier, scheme: Scheme<M>, message: M, mask: set<nat>, sig: Option<Signature>)
    requires InRange(v, mask) && Distinct(v.Addresses())
    ensures VerifySigners(v, scheme, message, InfosAt(v, Ascending(mask)), sig).Success? <==>
            && mask != {}
            && Power(v.infos, mask) >= v.quorumVotingPower
            && sig.Some?
            && scheme.valid(scheme.sumKeys(multiset(KeysOf(InfosAt(v, Ascending(mask))))), message, sig.value)
  {
    DecodedPower(v, mask);
    var keys := KeysOf(InfosAt(v, Ascending(mask)));
    assert |keys| == |mask|;
  }

  lemma DecodedPower(v: ValidatorVerifier, mask: set<nat>)
    requires InRange(v, mask) && Distinct(v.Addresses())
    ensures CheckVotingPower(v, Decoded(v, mask), true).Success? <==> Power(v.infos, mask) >= v.quorumVotingPower
  {
    DecodedKnown(v, mask);
    PowerByAddressIsPowerByBit(v, Decoded(v, mask));
  }

  /** Why a multi-signature is refused: the mask first, then the quorum, then the signature. */
  lemma RejectedExactly<M>(v: ValidatorVerifier, scheme: Scheme<M>, message: M, multi: AggregateSignature)
    requires Distinct(v.Addresses()) && VerifyMultiSpec(v, scheme, message, multi).Failure?
    ensures var mask, error := multi.bitmask, VerifyMultiSpec(v, scheme, message, multi).error;
            if !MaskFits(v, mask) then error == InvalidBitVec
            else if Power(v.infos, mask.ones) < v.quorumVotingPower then
              error == TooLittleVotingPower(Power(v.infos, mask.ones), v.quorumVotingPower)
            else if multi.sig == None then error == EmptySignature
            else if mask.ones == {} then error == FailedToAggregatePubKey
            else error == InvalidMultiSignature
  {
    var mask := multi.bitmask.ones;
    CountCheckExactly(v, multi.bitmask);
    if MaskFits(v, multi.bitmask) {
      DecodedKnown(v, mask);
      PowerCheckExactly(v, Decoded(v, mask), true);
      assert |KeysOf(InfosAt(v, Ascending(mask)))| == |mask|;
    }
  }

  // ---------- One signature ----------

  /** The validator at `i` answers to the address; of several, the last one does. */
  ghost predicate AnswersTo(v: ValidatorVerifier, i: nat, author: Address) {
    && i < |v.infos| && v.infos[i].address == author
    && forall j :: i < j < |v.infos| ==> v.infos[j].address != author
  }

  /** A signature is accepted exactly when it is valid under the key of the validator that answers
      to the author's address. */
  lemma VerifyExactly<M>(v: ValidatorVerifier, scheme: Scheme<M>, author: Address, message: M, signature: Signature)
    ensures v.Verify(scheme, author, message, signature).Success? <==>
            exists i: nat :: AnswersTo(v, i, author) && scheme.valid(v.infos[i].publicKey, message, signature)
    ensures (forall i :: 0 <= i < |v.infos| ==> v.infos[i].address != author) ==>
              v.Verify(scheme, author, message, signature) == Failure(UnknownAuthor)
    ensures forall i: nat :: AnswersTo(v, i, author) && !scheme.valid(v.infos[i].publicKey, message, signature) ==>
              v.Verify(scheme, author, message, signature) == Failure(InvalidMultiSignature)
  {
    var index := v.AddressIndex();
    forall i: nat | AnswersTo(v, i, author)
      ensures author in index && index[author] == i
    {
      assert i <= index[v.infos[i].address];
    }
    if author in index {
      assert AnswersTo(v, index[author], author);
    }
  }

  /** With distinct addresses everybody answers to their own. */
  lemma DistinctAnswer(v: ValidatorVerifier, i: nat)
    requires Distinct(v.Addresses()) && i < |v.infos|
    ensures AnswersTo(v, i, v.infos[i].address)
  {
    assert forall j :: i < j < |v.infos| ==> v.Addresses()[i] != v.Addresses()[j];
  }

  // ---------- The quorum ----------

  /** `new` keeps the validators, and asks for no power of nobody and otherwise for more than two
      thirds of the total. */
  lemma QuorumExactly(infos: seq<ValidatorConsensusInfo>, mask: set<nat>)
    ensures NewVerifier(infos).infos == infos
    ensures infos == [] ==> NewVerifier(infos).quorumVotingPower == 0
    ensures infos != [] ==>
              (Power(infos, mask) >= NewVerifier(infos).quorumVotingPower <==> 3 * Power(infos, mask) > 2 * TotalPower(infos))
  {
  }

  ghost function Everybody(infos: seq<ValidatorConsensusInfo>): set<nat> {
    Elements(Upto(|infos|))
  }

  lemma PowerOfOthers(infos: seq<ValidatorConsensusInfo>, mask: set<nat>)
    ensures Power(infos, Everybody(infos) - mask) + Power(infos, mask) == TotalPower(infos)
  {
    var others := Everybody(infos) - mask;
    UptoElements(|infos|);
    PowerInclusionExclusion(infos, others, mask);
    assert others * mask == {};
    PowerOfNothing(infos);
    PowerWithinTotal(infos, others + mask);
  }

  /** If the faulty validators hold less than a third of the power, the others reach the quorum
      without them. */
  lemma HonestReachQuorum(v: ValidatorVerifier, faulty: set<nat>)
    requires WellFormed(v) && 3 * Power(v.infos, faulty) < v.TotalVotingPower()
    ensures Power(v.infos, Everybody(v.infos) - faulty) >= v.quorumVotingPower
  {
    PowerOfOthers(v.infos, faulty);
    QuorumExactly(v.infos, Everybody(v.infos) - faulty);
    assert v.infos == [] ==> TotalPower(v.infos) == 0;
  }

  /** What the check of voting power answers for any authors: it needs to know them, and if they
      do not have the power asked for it reports what they have and what was asked. */
  lemma PowerCheckExactly(v: ValidatorVerifier, authors: seq<Address>, superMajority: bool)
    requires PowerTarget(v, superMajority).Some?
    ensures !AllKnown(v, authors) ==> CheckVotingPower(v, authors, superMajority) == Failure(UnknownAuthor)
    ensures AllKnown(v, authors) ==>
              var power := PowerOfAuthors(v, authors);
              var needed := if superMajority then v.quorumVotingPower else v.TotalVotingPower() - v.quorumVotingPower + 1;
              CheckVotingPower(v, authors, superMajority)
              == if power >= needed then Success(power) else Failure(TooLittleVotingPower(power, needed))
    ensures AllKnown(v, authors) && Distinct(authors) ==>
              PowerOfAuthors(v, authors) == Power(v.infos, PositionSet(v, authors))
  {
    if AllKnown(v, authors) && Distinct(authors) {
      PowerByAddressIsPowerByBit(v, authors);
    }
  }

  /** Authors pass the non-super-majority check exactly when they hold a third of the power,
      that is when the others do not reach the quorum without them. */
  lemma NonSuperMajorityExactly(v: ValidatorVerifier, authors: seq<Address>)
    requires WellFormed(v) && v.TotalVotingPower() > 0 && Distinct(authors) && AllKnown(v, authors)
    ensures PowerTarget(v, false).Some?
    ensures var mine := PositionSet(v, authors);
            && (CheckVotingPower(v, authors, false).Success? <==> 3 * Power(v.infos, mine) >= v.TotalVotingPower())
            && (CheckVotingPower(v, authors, false).Success? <==>
                  Power(v.infos, Everybody(v.infos) - mine) < v.quorumVotingPower)
  {
    var mine := PositionSet(v, authors);
    PowerCheckExactly(v, authors, false);
    PowerOfOthers(v.infos, mine);
    QuorumExactly(v.infos, mine);
  }

  /** An author listed twice counts twice: power is summed over the list. */
  lemma {:induction false} PowerOfAuthorsAppend(v: ValidatorVerifier, a: seq<Address>, b: seq<Address>)
    requires AllKnown(v, a) && AllKnown(v, b)
    ensures AllKnown(v, a + b) && PowerOfAuthors(v, a + b) == PowerOfAuthors(v, a) + PowerOfAuthors(v, b)
  {
    if b == [] {
      assert a + b == a;
    } else {
      var last := |b| - 1;
      PowerOfAuthorsAppend(v, a, b[..last]);
      assert (a + b)[..|a + b| - 1] == a + b[..last] && (a + b)[|a + b| - 1] == b[last];
    }
  }

  // ---------- Quorum intersection ----------

  /** Any two accepted signer sets share more than a third of the total voting power. */
  lemma AcceptedQuorumsIntersect<M>(
    v: ValidatorVerifier, scheme: Scheme<M>, m1: M, s1: AggregateSignature, m2: M, s2: AggregateSignature)
    requires WellFormed(v)
    requires VerifyMultiSpec(v, scheme, m1, s1).Success? && VerifyMultiSpec(v, scheme, m2, s2).Success?
    ensures 3 * Power(v.infos, s1.bitmask.ones * s2.bitmask.ones) > v.TotalVotingPower()
  {
    AcceptedExactly(v, scheme, m1, s1);
    AcceptedExactly(v, scheme, m2, s2);
    PowerInclusionExclusion(v.infos, s1.bitmask.ones, s2.bitmask.ones);
    PowerWithinTotal(v.infos, s1.bitmask.ones + s2.bitmask.ones);
  }

  /** The `total - quorum + 1` target underflows exactly for a non-empty set of zero power. */
  lemma TargetUnderflowsExactly(infos: seq<ValidatorConsensusInfo>)
    ensures PowerTarget(NewVerifier(infos), false) == None <==> infos != [] && TotalPower(infos) == 0
  {
    assert infos == [] ==> TotalPower(infos) == 0;
  }

  /** A set of authors passing the non-super-majority check has a member of positive power
      in every accepted quorum. */
  lemma NonSuperMajorityMeetsEveryQuorum<M>(
    v: ValidatorVerifier, authors: seq<Address>, scheme: Scheme<M>, message: M, multi: AggregateSignature)
    returns (p: nat)
    requires WellFormed(v) && v.TotalVotingPower() > 0
    requires Distinct(authors) && CheckVotingPower(v, authors, false).Success?
    requires VerifyMultiSpec(v, scheme, message, multi).Success?
    ensures p in multi.bitmask.ones && p < |v.infos|
    ensures v.infos[p].address in authors && v.infos[p].votingPower > 0
  {
    AcceptedExactly(v, scheme, message, multi);
    PowerByAddressIsPowerByBit(v, authors);
    var mine, theirs := PositionSet(v, authors), multi.bitmask.ones;
    PowerInclusionExclusion(v.infos, mine, theirs);
    PowerWithinTotal(v.infos, mine + theirs);
    p := PositivePowerWitness(v.infos, mine * theirs);
    assert p in Positions(v, authors);
    var k :| 0 <= k < |authors| && Positions(v, authors)[k] == p;
    assert v.infos[p].address == authors[k];
  }

  /** If the faulty validators hold less than a third of the power, every set of
      positions reaching the quorum has a member that is not faulty. */
  lemma FaultBoundLeavesHonestSigner(v: ValidatorVerifier, faulty: set<nat>, mask: set<nat>) returns (p: nat)
    requires WellFormed(v) && 3 * Power(v.infos, faulty) < v.TotalVotingPower()
    requires Power(v.infos, mask) >= v.quorumVotingPower
    ensures p in mask && p !in faulty && p < |v.infos|
  {
    var honest := mask - faulty;
    PowerInclusionExclusion(v.infos, honest, mask * faulty);
    assert honest + mask * faulty == mask && honest * (mask * faulty) == {};
    PowerOfNothing(v.infos);
    PowerInclusionExclusion(v.infos, mask * faulty, faulty - mask);
    assert mask * faulty + (faulty - mask) == faulty && (mask * faulty) * (faulty - mask) == {};
    p := PositivePowerWitness(v.infos, honest);
  }

  // ---------- The mask built by aggregation ----------

  lemma SetWithinBuckets(p: nat, n: nat)
    requires p < n < U16_LIMIT
    ensures AsU16(p) == p && AsU16(n) == n && p / BUCKET_SIZE + 1 <= RequiredBuckets(n)
  {
    assert p / 8 <= (n - 1) / 8;
  }

  /** A mask has just enough buckets for its bits. */
  lemma BucketsExactly(bits: nat)
    ensures 8 * RequiredBuckets(bits) >= bits
    ensures forall buckets: nat :: 8 * buckets >= bits ==> buckets >= RequiredBuckets(bits)
    ensures BitVec.WithNumBits(bits) == BitVec(RequiredBuckets(bits), {})
  {
  }

  /** Setting a bit adds that bit, and as many buckets as it takes to hold it. */
  lemma SetExactly(mask: BitVec, position: nat)
    ensures mask.Set(position).ones == mask.ones + {position}
    ensures mask.Set(position).buckets >= mask.buckets && mask.Set(position).buckets >= RequiredBuckets(position + 1)
    ensures mask.Set(position).buckets == mask.buckets || mask.Set(position).buckets == RequiredBuckets(position + 1)
  {
  }

  lemma MaskOfOne(v: ValidatorVerifier, a: Address)
    requires a in v.AddressIndex()
    ensures MaskFor(v, [a]).ones == {v.AddressIndex()[a] % 0x1_0000}
  {
    assert [a][..0] == [];
  }

  /** Positions are cut to 16 bits: two validators get the same bit exactly when their positions
      are a multiple of 65536 apart, so with more validators than that some do. */
  lemma SameBitExactly(v: ValidatorVerifier, a: Address, b: Address)
    requires a in v.AddressIndex() && b in v.AddressIndex()
    ensures MaskFor(v, [a]).ones == MaskFor(v, [b]).ones <==>
            v.AddressIndex()[a] % 0x1_0000 == v.AddressIndex()[b] % 0x1_0000
  {
    MaskOfOne(v, a);
    MaskOfOne(v, b);
    assert v.AddressIndex()[a] % 0x1_0000 in MaskFor(v, [a]).ones;
  }

  /** The mask for any authors: their positions cut to 16 bits, and the buckets that the number of
      validators, cut likewise, and these positions need. */
  lemma {:induction false} MaskForExactly(v: ValidatorVerifier, authors: seq<Address>, p: nat)
    requires AllKnown(v, authors)
    ensures p in MaskFor(v, authors).ones <==>
            exists i :: 0 <= i < |authors| && v.AddressIndex()[authors[i]] % 0x1_0000 == p
    ensures MaskFor(v, authors).buckets >= RequiredBuckets(|v.infos| % 0x1_0000)
    ensures p in MaskFor(v, authors).ones ==> MaskFor(v, authors).buckets >= RequiredBuckets(p + 1)
    ensures MaskFor(v, authors).buckets == RequiredBuckets(|v.infos| % 0x1_0000) ||
            exists q :: q in MaskFor(v, authors).ones && MaskFor(v, authors).buckets == RequiredBuckets(q + 1)
  {
    if authors != [] {
      var last := |authors| - 1;
      var init := authors[..last];
      var q := v.AddressIndex()[authors[last]] % 0x1_0000;
      MaskForExactly(v, init, p);
      SetExactly(MaskFor(v, init), q);
      assert MaskFor(v, authors) == MaskFor(v, init).Set(q);
      assert forall i :: 0 <= i < last ==> init[i] == authors[i];
    }
  }

  /** Reading addresses off a mask looks at positions cut to 16 bits. */
  lemma {:induction false} SelectExactly(addresses: seq<Address>, mask: set<nat>, upto: nat, a: Address)
    requires upto <= |addresses|
    ensures a in Select(addresses, mask, upto) <==>
            exists i :: 0 <= i < upto && addresses[i] == a && i % 0x1_0000 in mask
  {
    if upto > 0 {
      SelectExactly(addresses, mask, upto - 1, a);
    }
  }

  /** What aggregating answers for any votes. */
  lemma AggregateOutcome<M>(v: ValidatorVerifier, scheme: Scheme<M>, votes: seq<Vote>)
    ensures !AllKnown(v, Voters(votes)) ==> AggregateSpec(v, scheme, votes) == Failure(UnknownAuthor)
    ensures votes == [] ==> AggregateSpec(v, scheme, votes) == Failure(FailedToAggregateSignature)
    ensures AllKnown(v, Voters(votes)) && votes != [] ==>
              && AggregateSpec(v, scheme, votes).Success?
              && AggregateSpec(v, scheme, votes).value.sig == Some(scheme.sumSignatures(multiset(VoteSignatures(votes))))
  {
    assert |VoteSignatures(votes)| == |votes|;
  }

  /** Positions that are nobody's are passed over by `aggregate_signature_authors`. */
  lemma {:induction false} AddressesAtExactly(infos: seq<ValidatorConsensusInfo>, positions: seq<nat>, a: Address)
    ensures a in AddressesAt(infos, positions) <==> exists p :: p in positions && p < |infos| && infos[p].address == a
  {
    if positions != [] {
      var init, last := positions[..|positions| - 1], positions[|positions| - 1];
      assert positions == init + [last];
      AddressesAtExactly(infos, init, a);
    }
  }

  lemma PositionSetAppend(v: ValidatorVerifier, authors: seq<Address>)
    requires AllKnown(v, authors) && authors != []
    ensures var last := |authors| - 1;
            PositionSet(v, authors) == PositionSet(v, authors[..last]) + {v.AddressIndex()[authors[last]]}
  {
    var last := |authors| - 1;
    assert Positions(v, authors) == Positions(v, authors[..last]) + [v.AddressIndex()[authors[last]]];
  }

  lemma {:induction false} MaskForIsPositions(v: ValidatorVerifier, authors: seq<Address>)
    requires AllKnown(v, authors) && |v.infos| < U16_LIMIT
    ensures MaskFor(v, authors).ones == PositionSet(v, authors)
    ensures MaskFor(v, authors).buckets == RequiredBuckets(|v.infos|)
  {
    if authors == [] {
      assert PositionSet(v, authors) == {};
    } else {
      var last := |authors| - 1;
      MaskForIsPositions(v, authors[..last]);
      SetWithinBuckets(v.AddressIndex()[authors[last]], |v.infos|);
      PositionSetAppend(v, authors);
    }
  }

  ghost function Below(mask: set<nat>, n: nat): set<nat> {
    set p | p in mask && p < n
  }

  lemma BelowStep(mask: set<nat>, p: nat)
    ensures Below(mask, p + 1) == if p in mask then Below(mask, p) + {p} else Below(mask, p)
  {
  }

  lemma SelectStep(addresses: seq<Address>, mask: set<nat>, p: nat)
    requires p < |addresses| < U16_LIMIT
    ensures Select(addresses, mask, p + 1) == Select(addresses, mask, p) + if p in mask then [addresses[p]] else []
  {
    SetWithinBuckets(p, |addresses|);
  }

  lemma {:induction false} SelectIsDecoded(v: ValidatorVerifier, mask: set<nat>, upto: nat)
    requires upto <= |v.infos| < U16_LIMIT
    ensures InRange(v, Below(mask, upto))
    ensures Select(v.Addresses(), mask, upto) == Decoded(v, Below(mask, upto))
  {
    if upto == 0 {
      assert Below(mask, upto) == {};
    } else {
      var p := upto - 1;
      SelectIsDecoded(v, mask, p);
      SelectStep(v.Addresses(), mask, p);
      BelowStep(mask, p);
      if p in mask {
        DecodedAppend(v, Below(mask, p), p);
      }
    }
  }

  lemma InfosAtAppend(v: ValidatorVerifier, positions: seq<nat>, p: nat)
    requires InBounds(v, positions) && p < |v.infos|
    ensures InBounds(v, positions + [p])
    ensures AddressesOf(InfosAt(v, positions + [p])) == AddressesOf(InfosAt(v, positions)) + [v.infos[p].address]
  {
    assert InfosAt(v, positions + [p]) == InfosAt(v, positions) + [v.infos[p]];
  }

  lemma DecodedAppend(v: ValidatorVerifier, mask: set<nat>, top: nat)
    requires InRange(v, mask) && top < |v.infos|
    requires forall x :: x in mask ==> x < top
    ensures InRange(v, mask + {top}) && Decoded(v, mask + {top}) == Decoded(v, mask) + [v.infos[top].address]
  {
    AscendingAppend(mask, top);
    InfosAtAppend(v, Ascending(mask), top);
  }

  lemma AscendingAppend(s: set<nat>, top: nat)
    requires forall x :: x in s ==> x < top
    ensures Ascending(s + {top}) == Ascending(s) + [top]
  {
    assert forall i :: 0 <= i < |s| ==> Ascending(s)[i] in s;
    AscendingUnique(Ascending(s) + [top], s + {top});
  }

  /** The mask that aggregation builds passes the voter-count check, and all three decoders
      read back one and the same list: each supplied voter exactly once. */
  lemma AggregateMaskDecodes<M>(v: ValidatorVerifier, scheme: Scheme<M>, votes: seq<Vote>)
    requires WellFormed(v) && Distinct(Voters(votes))
    requires AggregateSpec(v, scheme, votes).Success?
    ensures var multi := AggregateSpec(v, scheme, votes).value;
            var mask := multi.bitmask;
            && CheckNumOfVoters(|v.infos|, mask).Success?
            && InRange(v, mask.ones)
            && AddressesOf(InfosAt(v, Ascending(mask.ones))) == Decoded(v, mask.ones)
            && AddressesAt(v.infos, Ascending(mask.ones)) == Decoded(v, mask.ones)
            && Select(v.Addresses(), mask.ones, |v.infos|) == Decoded(v, mask.ones)
            && Distinct(Decoded(v, mask.ones))
            && multiset(Decoded(v, mask.ones)) == multiset(Voters(votes))
            && PowerOfAuthors(v, Voters(votes)) == Power(v.infos, mask.ones)
  {
    var voters := Voters(votes);
    var mask := MaskFor(v, voters);
    MaskForIsPositions(v, voters);
    DecodedHasVoters(v, voters);
    LastBitBounds(mask, |v.infos|);
    InRangeExactly(v, mask.ones);
    AddressesAtInBounds(v, Ascending(mask.ones));
    assert Below(mask.ones, |v.infos|) == mask.ones;
    SelectIsDecoded(v, mask.ones, |v.infos|);
    DecodedKnown(v, mask.ones);
    PowerByAddressIsPowerByBit(v, voters);
    DistinctPermutation(Decoded(v, mask.ones), voters);
  }

  lemma {:induction false} AddressesAtInBounds(v: ValidatorVerifier, positions: seq<nat>)
    requires InBounds(v, positions)
    ensures AddressesAt(v.infos, positions) == AddressesOf(InfosAt(v, positions))
  {
    if positions != [] {
      var init, last := positions[..|positions| - 1], positions[|positions| - 1];
      assert positions == init + [last];
      AddressesAtInBounds(v, init);
      InfosAtAppend(v, init, last);
    }
  }

  lemma DecodedHasVoters(v: ValidatorVerifier, voters: seq<Address>)
    requires Distinct(v.Addresses()) && AllKnown(v, voters)
    ensures InRange(v, PositionSet(v, voters))
    ensures forall a :: a in Decoded(v, PositionSet(v, voters)) <==> a in voters
  {
    var mask, positions := PositionSet(v, voters), Positions(v, voters);
    InRangeExactly(v, mask);
    var ascending, authors := Ascending(mask), Decoded(v, mask);
    forall i | 0 <= i < |authors|
      ensures authors[i] in voters
    {
      assert ascending[i] in mask;
      var k :| 0 <= k < |voters| && positions[k] == ascending[i];
      assert voters[k] == authors[i];
    }
    forall k | 0 <= k < |voters|
      ensures voters[k] in authors
    {
      assert positions[k] in mask;
      var i :| 0 <= i < |ascending| && ascending[i] == positions[k];
      assert authors[i] == voters[k];
    }
  }
}
