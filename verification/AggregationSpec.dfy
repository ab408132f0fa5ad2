/** Optimistic signature aggregation over values: what one aggregator holds, what a call
    does to it, and what every run of calls guarantees. */
module AggregationSpec {
  import opened Prelude
  import opened Bls
  import opened Validators
  import opened Quorums

  /** A held signature together with the current value of its status flag. */
  datatype Entry = Entry(signature: Signature, verified: bool)

  type Entries = map<Address, Entry>

  /** What stays fixed while one aggregator is in use. */
  datatype Setting<!M> = Setting(verifier: ValidatorVerifier, scheme: Scheme<M>, data: M) {
    predicate Valid(author: Address, signature: Signature) {
      verifier.Verify(scheme, author, data, signature).Success?
    }
  }

  ghost predicate Sound<M(!new)>(s: Setting<M>) {
    WellFormed(s.verifier) && Complete(s.scheme)
  }

  /** A signature is valid exactly when it is under the key of the validator that answers to the
      address. */
  lemma ValidExactly<M>(s: Setting<M>, author: Address, signature: Signature)
    ensures s.Valid(author, signature) <==>
            exists i: nat :: AnswersTo(s.verifier, i, author) && s.scheme.valid(s.verifier.infos[i].publicKey, s.data, signature)
  {
    VerifyExactly(s.verifier, s.scheme, author, s.data, signature);
  }

  // ---------- The operations ----------

  /** `optimistic_verify`: the entry as it leaves the check. */
  function Admit<M>(s: Setting<M>, optimistic: bool, pessimistic: set<Address>, author: Address, entry: Entry)
    : Result<Entry, VerifyError>
  {
    if s.verifier.GetPublicKey(author) == None then Failure(UnknownAuthor)
    else if (!optimistic || author in pessimistic) && !entry.verified then
      var _ :- s.verifier.Verify(s.scheme, author, s.data, entry.signature);
      Success(Entry(entry.signature, true))
    else Success(entry)
  }

  /** Admission lets a known author through unless a check is due and fails; a check is due when
      the signature is not flagged and its author is not given the benefit of the doubt. So
      what an author without that benefit gets through is valid, if flags are truthful. */
  lemma AdmitExactly<M>(s: Setting<M>, optimistic: bool, pessimistic: set<Address>, author: Address, entry: Entry)
    ensures var mustCheck := (!optimistic || author in pessimistic) && !entry.verified;
            var admitted := Admit(s, optimistic, pessimistic, author, entry);
            && (admitted.Success? <==>
                  author in s.verifier.AddressIndex() && (mustCheck ==> s.Valid(author, entry.signature)))
            && (admitted.Success? ==> admitted.value == Entry(entry.signature, entry.verified || mustCheck))
            && (author !in s.verifier.AddressIndex() ==> admitted == Failure(UnknownAuthor))
            && (author in s.verifier.AddressIndex() && admitted.Failure? ==> admitted.error == InvalidMultiSignature)
            && ((entry.verified ==> s.Valid(author, entry.signature)) && (!optimistic || author in pessimistic) ==>
                  (admitted.Success? <==> s.Valid(author, entry.signature)))
  {
  }

  /** The held signatures in address order. */
  ghost function Votes(entries: Entries): seq<Vote> {
    VotesOf(entries, Ascending(entries.Keys))
  }

  function VotesOf(entries: Entries, authors: seq<Address>): (votes: seq<Vote>)
    requires forall i :: 0 <= i < |authors| ==> authors[i] in entries.Keys
    ensures |votes| == |authors|
    ensures forall i :: 0 <= i < |authors| ==> votes[i] == (authors[i], entries[authors[i]].signature)
    ensures Voters(votes) == authors
  {
    var votes := seq(|authors|, i requires 0 <= i < |authors| => (authors[i], entries[authors[i]].signature));
    assert Voters(votes) == authors;
    votes
  }

  /** `try_aggregate`: quorum first, then aggregation. */
  function TryAggregateVotes<M>(v: ValidatorVerifier, scheme: Scheme<M>, votes: seq<Vote>)
    : Result<AggregateSignature, VerifyError>
  {
    var _ :- CheckVotingPower(v, Voters(votes), true);
    AggregateSpec(v, scheme, votes)
  }

  ghost function TryAggregate<M>(s: Setting<M>, entries: Entries): Result<AggregateSignature, VerifyError> {
    TryAggregateVotes(s.verifier, s.scheme, Votes(entries))
  }

  predicate Passes<M>(s: Setting<M>, author: Address, entry: Entry) {
    entry.verified || s.Valid(author, entry.signature)
  }

  /** `filter_invalid_signatures`: what stays, all flagged verified. */
  function Kept<M>(s: Setting<M>, entries: Entries): Entries {
    map a | a in entries && Passes(s, a, entries[a]) :: Entry(entries[a].signature, true)
  }

  /** Whom the filter adds to the pessimistic set. */
  function Culprits<M>(s: Setting<M>, entries: Entries): set<Address> {
    set a | a in entries && !Passes(s, a, entries[a])
  }

  datatype Outcome = Outcome(
    result: Result<AggregateSignature, VerifyError>, entries: Entries, culprits: set<Address>, fellBack: bool)

  /** `aggregate_and_verify`. */
  ghost function AggregateAndVerify<M>(s: Setting<M>, entries: Entries): Outcome {
    match TryAggregate(s, entries)
    case Failure(error) => Outcome(Failure(error), entries, {}, false)
    case Success(multi) =>
      if VerifyMultiSpec(s.verifier, s.scheme, s.data, multi).Success? then
        Outcome(Success(multi), entries, {}, false)
      else
        var kept := Kept(s, entries);
        Outcome(TryAggregate(s, kept), kept, Culprits(s, entries), true)
  }

  /** The three ways through the call. */
  lemma OutcomeCases<M>(s: Setting<M>, entries: Entries, first: Result<AggregateSignature, VerifyError>)
    requires first == TryAggregate(s, entries)
    ensures first.Failure? ==> AggregateAndVerify(s, entries) == Outcome(first, entries, {}, false)
    ensures first.Success? && VerifyMultiSpec(s.verifier, s.scheme, s.data, first.value).Success? ==>
              AggregateAndVerify(s, entries) == Outcome(first, entries, {}, false)
    ensures first.Success? && !VerifyMultiSpec(s.verifier, s.scheme, s.data, first.value).Success? ==>
              var kept := Kept(s, entries);
              AggregateAndVerify(s, entries) == Outcome(TryAggregate(s, kept), kept, Culprits(s, entries), true)
  {
  }

  /** What a call leaves behind, apart from its result. */
  ghost predicate Shape<M>(s: Setting<M>, entries: Entries, out: Outcome) {
    if out.fellBack then out.entries == Kept(s, entries) && out.culprits == Culprits(s, entries)
    else out.entries == entries && out.culprits == {}
  }

  lemma OutcomeShape<M>(s: Setting<M>, entries: Entries)
    ensures Shape(s, entries, AggregateAndVerify(s, entries))
  {
    OutcomeCases(s, entries, TryAggregate(s, entries));
  }

  // ---------- An aggregate of valid signatures verifies ----------

  /** Every flag that is up is right about the aggregator's data. */
  ghost predicate Truthful<M>(s: Setting<M>, entries: Entries) {
    forall a :: a in entries && entries[a].verified ==> s.Valid(a, entries[a].signature)
  }

  ghost predicate AllGood<M>(s: Setting<M>, entries: Entries) {
    forall a :: a in entries ==> s.Valid(a, entries[a].signature)
  }

  ghost function KeyOf(v: ValidatorVerifier, author: Address): PublicKey {
    var key := v.GetPublicKey(author);
    if key.Some? then key.value else PublicKey(0)
  }

  /** The keys found at a mask are the keys of the authors it denotes. */
  lemma DecodedKeys(v: ValidatorVerifier, mask: set<nat>)
    requires InRange(v, mask) && Distinct(v.Addresses())
    ensures KeysOf(InfosAt(v, Ascending(mask))) == MapSeq(Decoded(v, mask), a => KeyOf(v, a))
  {
    var positions, authors := Ascending(mask), Decoded(v, mask);
    forall i | 0 <= i < |positions|
      ensures KeyOf(v, authors[i]) == v.infos[positions[i]].publicKey
    {
      IndexInverse(v, positions[i]);
    }
  }

  lemma VotersKeysSum<M>(v: ValidatorVerifier, scheme: Scheme<M>, votes: seq<Vote>)
    requires WellFormed(v) && Distinct(Voters(votes)) && AggregateSpec(v, scheme, votes).Success?
    ensures var mask := AggregateSpec(v, scheme, votes).value.bitmask.ones;
            InRange(v, mask) &&
            multiset(KeysOf(InfosAt(v, Ascending(mask)))) == multiset(MapSeq(Voters(votes), a => KeyOf(v, a)))
  {
    AggregateMaskDecodes(v, scheme, votes);
    var mask := AggregateSpec(v, scheme, votes).value.bitmask.ones;
    DecodedKeys(v, mask);
    MapPermutation(Decoded(v, mask), Voters(votes), a => KeyOf(v, a));
  }

  /** Votes that are each valid aggregate into an accepted multi-signature if they hold a quorum. */
  lemma ValidVotesAccepted<M(!new)>(s: Setting<M>, votes: seq<Vote>)
    requires Sound(s) && Distinct(Voters(votes))
    requires AggregateSpec(s.verifier, s.scheme, votes).Success?
    requires forall i :: 0 <= i < |votes| ==> s.Valid(votes[i].0, votes[i].1)
    requires PowerOfAuthors(s.verifier, Voters(votes)) >= s.verifier.quorumVotingPower
    ensures VerifyMultiSpec(s.verifier, s.scheme, s.data, AggregateSpec(s.verifier, s.scheme, votes).value).Success?
  {
    var v, multi := s.verifier, AggregateSpec(s.verifier, s.scheme, votes).value;
    AggregateMaskDecodes(v, s.scheme, votes);
    CountCheckExactly(v, multi.bitmask);
    MaskNotEmpty(v, s.scheme, votes);
    VotersKeysSum(v, s.scheme, votes);
    VotesSumIsValid(s, votes);
    AcceptedExactly(v, s.scheme, s.data, multi);
  }

  lemma VotesSumIsValid<M(!new)>(s: Setting<M>, votes: seq<Vote>)
    requires Complete(s.scheme) && votes != []
    requires forall i :: 0 <= i < |votes| ==> s.Valid(votes[i].0, votes[i].1)
    ensures var keys := MapSeq(Voters(votes), a => KeyOf(s.verifier, a));
            s.scheme.valid(s.scheme.sumKeys(multiset(keys)), s.data, s.scheme.sumSignatures(multiset(VoteSignatures(votes))))
  {
    var keys := MapSeq(Voters(votes), a => KeyOf(s.verifier, a));
    assert s.scheme.AllValid(s.data, keys, VoteSignatures(votes));
  }

  lemma MaskNotEmpty<M>(v: ValidatorVerifier, scheme: Scheme<M>, votes: seq<Vote>)
    requires WellFormed(v) && Distinct(Voters(votes)) && AggregateSpec(v, scheme, votes).Success?
    ensures AggregateSpec(v, scheme, votes).value.bitmask.ones != {} && votes != []
  {
    AggregateMaskDecodes(v, scheme, votes);
    var mask := AggregateSpec(v, scheme, votes).value.bitmask.ones;
    assert |multiset(Decoded(v, mask))| == |multiset(Voters(votes))|;
  }

  lemma GoodAggregateVerifies<M(!new)>(s: Setting<M>, entries: Entries)
    requires Sound(s) && AllGood(s, entries) && TryAggregate(s, entries).Success?
    ensures VerifyMultiSpec(s.verifier, s.scheme, s.data, TryAggregate(s, entries).value).Success?
  {
    var authors, votes := Ascending(entries.Keys), Votes(entries);
    assert Voters(votes) == authors;
    forall i | 0 <= i < |votes|
      ensures s.Valid(votes[i].0, votes[i].1)
    {
      assert votes[i] == (authors[i], entries[authors[i]].signature);
    }
    ValidVotesAccepted(s, votes);
  }

  // ---------- One call ----------

  lemma KeptAreGood<M>(s: Setting<M>, entries: Entries)
    requires Truthful(s, entries)
    ensures AllGood(s, Kept(s, entries))
  {
  }

  /** Truthful flags stay truthful, and whatever aggregate the call returns passes
      `verify_multi_signatures`, also when it comes from the fallback, which does not
      check it again. */
  lemma ReturnedAggregateVerifies<M(!new)>(s: Setting<M>, entries: Entries)
    requires Sound(s) && Truthful(s, entries)
    ensures var out := AggregateAndVerify(s, entries);
            && Truthful(s, out.entries)
            && (out.result.Success? ==> VerifyMultiSpec(s.verifier, s.scheme, s.data, out.result.value).Success?)
  {
    var out := AggregateAndVerify(s, entries);
    if out.fellBack {
      KeptAreGood(s, entries);
      if out.result.Success? {
        GoodAggregateVerifies(s, out.entries);
      }
    }
  }

  ghost function GoodVoters<M>(s: Setting<M>, entries: Entries): set<Address> {
    set a | a in entries && s.Valid(a, entries[a].signature)
  }

  ghost predicate KnownVoters<M>(s: Setting<M>, entries: Entries) {
    forall a :: a in entries ==> a in s.verifier.AddressIndex()
  }

  /** The voting power of a set of known authors. */
  ghost function PowerOfSet(v: ValidatorVerifier, authors: set<Address>): nat
    requires forall a :: a in authors ==> a in v.AddressIndex()
  {
    AscendingKnown(v, authors);
    PowerOfAuthors(v, Ascending(authors))
  }

  lemma AscendingKnown(v: ValidatorVerifier, authors: set<Address>)
    requires forall a :: a in authors ==> a in v.AddressIndex()
    ensures AllKnown(v, Ascending(authors)) && Distinct(Ascending(authors))
  {
    assert forall i :: 0 <= i < |authors| ==> Ascending(authors)[i] in authors;
  }

  lemma PowerOfSetMonotone(v: ValidatorVerifier, a: set<Address>, b: set<Address>)
    requires a <= b && forall x :: x in b ==> x in v.AddressIndex()
    ensures PowerOfSet(v, a) <= PowerOfSet(v, b)
  {
    AscendingKnown(v, a);
    AscendingKnown(v, b);
    PowerByAddressIsPowerByBit(v, Ascending(a));
    PowerByAddressIsPowerByBit(v, Ascending(b));
    var pa, pb := PositionSet(v, Ascending(a)), PositionSet(v, Ascending(b));
    forall p | p in pa
      ensures p in pb
    {
      var i :| 0 <= i < |a| && Positions(v, Ascending(a))[i] == p;
      assert Ascending(a)[i] in b;
      var j :| 0 <= j < |b| && Ascending(b)[j] == Ascending(a)[i];
      assert Positions(v, Ascending(b))[j] == p;
    }
    PowerInclusionExclusion(v.infos, pa, pb - pa);
    assert pa + (pb - pa) == pb && pa * (pb - pa) == {};
    PowerOfNothing(v.infos);
  }

  /** With known voters, aggregation succeeds exactly when somebody voted and the quorum is reached. */
  lemma TryAggregateExactly<M>(s: Setting<M>, entries: Entries)
    requires KnownVoters(s, entries)
    ensures TryAggregate(s, entries).Success? <==>
            entries.Keys != {} && PowerOfSet(s.verifier, entries.Keys) >= s.verifier.quorumVotingPower
  {
    AscendingKnown(s.verifier, entries.Keys);
    KnownVotesAggregate(s.verifier, s.scheme, Votes(entries));
    assert |Votes(entries)| == |entries.Keys|;
  }

  /** Why aggregation fails: somebody is unknown, the power held is too little, or nobody voted. */
  lemma TryAggregateErrors<M>(s: Setting<M>, entries: Entries)
    ensures !KnownVoters(s, entries) ==> TryAggregate(s, entries) == Failure(UnknownAuthor)
    ensures KnownVoters(s, entries) && PowerOfSet(s.verifier, entries.Keys) < s.verifier.quorumVotingPower ==>
              TryAggregate(s, entries)
              == Failure(TooLittleVotingPower(PowerOfSet(s.verifier, entries.Keys), s.verifier.quorumVotingPower))
    ensures s.verifier.quorumVotingPower == 0 && entries == map[] ==>
              TryAggregate(s, entries) == Failure(FailedToAggregateSignature)
  {
    var authors := Ascending(entries.Keys);
    PowerCheckExactly(s.verifier, authors, true);
    if KnownVoters(s, entries) {
      AscendingKnown(s.verifier, entries.Keys);
      PowerByAddressIsPowerByBit(s.verifier, authors);
    } else {
      var a :| a in entries && a !in s.verifier.AddressIndex();
      assert a in authors;
      var i :| 0 <= i < |authors| && authors[i] == a;
      assert !AllKnown(s.verifier, authors);
    }
    AggregateOutcome(s.verifier, s.scheme, Votes(entries));
  }

  /** The aggregate is of everything held: its mask reads back as the voters, and its signature
      is the sum of theirs. */
  lemma AggregateCoversHeld<M>(s: Setting<M>, entries: Entries)
    requires WellFormed(s.verifier) && TryAggregate(s, entries).Success?
    ensures CoversVotes(s, Votes(entries), TryAggregate(s, entries).value)
    ensures Voters(Votes(entries)) == Ascending(entries.Keys)
    ensures VoteSignatures(Votes(entries)) == HeldSignatures(entries)
  {
    VotesAreCovered(s, Votes(entries));
  }

  ghost predicate CoversVotes<M>(s: Setting<M>, votes: seq<Vote>, multi: AggregateSignature) {
    && InRange(s.verifier, multi.bitmask.ones)
    && multiset(Decoded(s.verifier, multi.bitmask.ones)) == multiset(Voters(votes))
    && multi.sig == Some(s.scheme.sumSignatures(multiset(VoteSignatures(votes))))
  }

  lemma VotesAreCovered<M>(s: Setting<M>, votes: seq<Vote>)
    requires WellFormed(s.verifier) && Distinct(Voters(votes)) && AggregateSpec(s.verifier, s.scheme, votes).Success?
    ensures CoversVotes(s, votes, AggregateSpec(s.verifier, s.scheme, votes).value)
  {
    AggregateMaskDecodes(s.verifier, s.scheme, votes);
    AggregateOutcome(s.verifier, s.scheme, votes);
  }

  /** The signatures held, in address order. */
  ghost function HeldSignatures(entries: Entries): (signatures: seq<Signature>)
    ensures |signatures| == |entries.Keys|
    ensures forall i :: 0 <= i < |entries.Keys| ==>
              Ascending(entries.Keys)[i] in entries && signatures[i] == entries[Ascending(entries.Keys)[i]].signature
  {
    assert forall i :: 0 <= i < |entries.Keys| ==> Ascending(entries.Keys)[i] in Ascending(entries.Keys);
    MapSeq(Ascending(entries.Keys), a => if a in entries then entries[a].signature else Signature(0))
  }

  lemma KnownVotesAggregate<M>(v: ValidatorVerifier, scheme: Scheme<M>, votes: seq<Vote>)
    requires AllKnown(v, Voters(votes))
    ensures AggregateSpec(v, scheme, votes).Success? <==> votes != []
  {
    assert |VoteSignatures(votes)| == |votes|;
  }

  /** Once a quorum of valid signatures is held the call succeeds, whatever else is held.
      It never drops a valid signature, and after a fallback exactly the valid ones remain,
      all flagged. */
  lemma ValidQuorumSucceeds<M>(s: Setting<M>, entries: Entries)
    requires KnownVoters(s, entries)
    requires s.verifier.quorumVotingPower > 0
    requires PowerOfSet(s.verifier, GoodVoters(s, entries)) >= s.verifier.quorumVotingPower
    ensures AggregateAndVerify(s, entries).result.Success?
  {
    var good, kept := GoodVoters(s, entries), Kept(s, entries);
    KeptBetween(s, entries);
    PowerOfSetMonotone(s.verifier, good, entries.Keys);
    PowerOfSetMonotone(s.verifier, good, kept.Keys);
    assert PowerOfAuthors(s.verifier, []) == 0;
    TryAggregateExactly(s, entries);
    TryAggregateExactly(s, kept);
    OutcomeCases(s, entries, TryAggregate(s, entries));
  }

  lemma KeptBetween<M>(s: Setting<M>, entries: Entries)
    ensures GoodVoters(s, entries) <= Kept(s, entries).Keys <= entries.Keys
  {
  }

  /** After a fallback the call succeeds exactly when the valid signatures alone reach the quorum. */
  lemma FallbackSucceedsExactly<M>(s: Setting<M>, entries: Entries)
    requires KnownVoters(s, entries) && Truthful(s, entries)
    requires AggregateAndVerify(s, entries).fellBack
    ensures AggregateAndVerify(s, entries).result.Success? <==>
            && GoodVoters(s, entries) != {}
            && PowerOfSet(s.verifier, GoodVoters(s, entries)) >= s.verifier.quorumVotingPower
  {
    KeptExactly(s, entries);
    TryAggregateExactly(s, Kept(s, entries));
    OutcomeCases(s, entries, TryAggregate(s, entries));
  }

  lemma KeptExactly<M>(s: Setting<M>, entries: Entries)
    requires Truthful(s, entries)
    ensures Kept(s, entries).Keys == GoodVoters(s, entries)
  {
  }

  /** No call drops a valid signature or a flagged one; a fallback keeps exactly the valid ones, flagged. */
  lemma ValidSignaturesSurvive<M>(s: Setting<M>, entries: Entries)
    ensures Survives(s, entries, AggregateAndVerify(s, entries))
  {
    OutcomeShape(s, entries);
    ShapeSurvives(s, entries, AggregateAndVerify(s, entries));
  }

  ghost predicate Survives<M>(s: Setting<M>, entries: Entries, out: Outcome) {
    && (forall a :: a in GoodVoters(s, entries) ==>
          a in out.entries && out.entries[a].signature == entries[a].signature)
    && (forall a :: a in entries && entries[a].verified ==> a in out.entries)
    && (out.fellBack && Truthful(s, entries) ==>
          && out.entries.Keys == GoodVoters(s, entries)
          && out.entries.Keys + out.culprits == entries.Keys
          && forall a :: a in out.entries ==> out.entries[a] == Entry(entries[a].signature, true))
  }

  lemma ShapeSurvives<M>(s: Setting<M>, entries: Entries, out: Outcome)
    requires Shape(s, entries, out)
    ensures Survives(s, entries, out)
  {
    if out.fellBack && Truthful(s, entries) {
      assert forall a :: a in entries ==> (Passes(s, a, entries[a]) <==> a in GoodVoters(s, entries));
    }
  }

  // ---------- Every run ----------

  /** One event at an aggregator. `Receive` runs `optimistic_verify` on the aggregator's own
      data and adds the signature if that passes. `Flag` is somebody else, who shares the
      status flag, verifying a signature held here. */
  datatype Event =
    | Receive(author: Address, entry: Entry)
    | Flag(voter: Address)
    | Aggregate

  datatype State = State(entries: Entries, pessimistic: set<Address>, fallbacks: nat)

  ghost function Step<M>(s: Setting<M>, optimistic: bool, st: State, event: Event): State {
    match event
    case Receive(author, entry) =>
      (match Admit(s, optimistic, st.pessimistic, author, entry)
       case Failure(_) => st
       case Success(admitted) => st.(entries := st.entries[author := admitted]))
    case Flag(voter) =>
      if voter in st.entries && s.Valid(voter, st.entries[voter].signature)
      then st.(entries := st.entries[voter := Entry(st.entries[voter].signature, true)])
      else st
    case Aggregate => Absorb(st, AggregateAndVerify(s, st.entries))
  }

  function Absorb(st: State, out: Outcome): State {
    State(out.entries, st.pessimistic + out.culprits, st.fallbacks + if out.fellBack then 1 else 0)
  }

  ghost function Run<M>(s: Setting<M>, optimistic: bool, st: State, events: seq<Event>): State {
    if events == [] then st
    else Step(s, optimistic, Run(s, optimistic, st, events[..|events| - 1]), events[|events| - 1])
  }

  /** A signature that arrives flagged has been verified against the same data. */
  ghost predicate HonestFlags<M>(s: Setting<M>, events: seq<Event>) {
    forall e :: e in events && e.Receive? && e.entry.verified ==> s.Valid(e.author, e.entry.signature)
  }

  ghost predicate Invariant<M>(s: Setting<M>, st: State) {
    && Truthful(s, st.entries)
    && KnownVoters(s, st.entries)
    && forall a :: a in st.entries && a in st.pessimistic ==> st.entries[a].verified
  }

  /** Validators not yet treated pessimistically. */
  ghost function Unsuspected(v: ValidatorVerifier, pessimistic: set<Address>): set<Address> {
    v.AddressIndex().Keys - pessimistic
  }

  /** A fallback always finds a culprit that was not suspected before. */
  lemma FallbackFindsCulprit<M(!new)>(s: Setting<M>, st: State)
    requires Sound(s) && Invariant(s, st) && AggregateAndVerify(s, st.entries).fellBack
    ensures var culprits := AggregateAndVerify(s, st.entries).culprits;
            culprits != {} && culprits <= Unsuspected(s.verifier, st.pessimistic)
  {
    var culprits := Culprits(s, st.entries);
    if culprits == {} {
      assert AllGood(s, st.entries) by {
        forall a | a in st.entries
          ensures s.Valid(a, st.entries[a].signature)
        {
          assert a !in culprits;
        }
      }
      GoodAggregateVerifies(s, st.entries);
      assert false;
    }
  }

  /** The quantity no event increases. */
  ghost function Budget<M>(s: Setting<M>, st: State): nat {
    st.fallbacks + |Unsuspected(s.verifier, st.pessimistic)|
  }

  lemma ReceiveKeepsInvariant<M>(s: Setting<M>, optimistic: bool, st: State, author: Address, entry: Entry)
    requires Invariant(s, st) && (entry.verified ==> s.Valid(author, entry.signature))
    ensures var admitted := Admit(s, optimistic, st.pessimistic, author, entry);
            admitted.Success? ==> Invariant(s, st.(entries := st.entries[author := admitted.value]))
  {
  }

  lemma AbsorbKeepsInvariant<M>(s: Setting<M>, st: State, out: Outcome)
    requires Invariant(s, st) && Shape(s, st.entries, out)
    requires out.fellBack ==> out.culprits != {} && out.culprits <= Unsuspected(s.verifier, st.pessimistic)
    ensures Invariant(s, Absorb(st, out)) && Budget(s, Absorb(st, out)) <= Budget(s, st)
  {
    var before := Unsuspected(s.verifier, st.pessimistic);
    assert Unsuspected(s.verifier, st.pessimistic + out.culprits) == before - out.culprits;
    if out.fellBack {
      KeptAreGood(s, st.entries);
      ShrinkStrictly(before, out.culprits);
    }
  }

  lemma StepKeepsInvariant<M(!new)>(s: Setting<M>, optimistic: bool, st: State, event: Event)
    requires Sound(s) && Invariant(s, st)
    requires event.Receive? && event.entry.verified ==> s.Valid(event.author, event.entry.signature)
    ensures Invariant(s, Step(s, optimistic, st, event))
    ensures Budget(s, Step(s, optimistic, st, event)) <= Budget(s, st)
  {
    match event
    case Receive(author, entry) => ReceiveKeepsInvariant(s, optimistic, st, author, entry);
    case Flag(_) =>
    case Aggregate =>
      OutcomeShape(s, st.entries);
      if AggregateAndVerify(s, st.entries).fellBack {
        FallbackFindsCulprit(s, st);
      }
      AbsorbKeepsInvariant(s, st, AggregateAndVerify(s, st.entries));
  }

  lemma ShrinkStrictly<T>(big: set<T>, part: set<T>)
    requires part != {} && part <= big
    ensures |big - part| < |big|
  {
    assert |big| == |big - part| + |part| by {
      assert big == (big - part) + part;
    }
  }

  /** Over every run the slow path is taken at most once per validator that was not
      suspected at the start, and flags stay truthful throughout. */
  lemma {:induction false} FallbacksBounded<M(!new)>(s: Setting<M>, optimistic: bool, st: State, events: seq<Event>)
    requires Sound(s) && Invariant(s, st) && HonestFlags(s, events)
    ensures Invariant(s, Run(s, optimistic, st, events))
    ensures Budget(s, Run(s, optimistic, st, events)) <= Budget(s, st)
    ensures Run(s, optimistic, st, events).fallbacks - st.fallbacks <= |Unsuspected(s.verifier, st.pessimistic)|
  {
    if events != [] {
      var init, last := events[..|events| - 1], events[|events| - 1];
      assert forall e :: e in init ==> e in events;
      FallbacksBounded(s, optimistic, st, init);
      assert last in events;
      StepKeepsInvariant(s, optimistic, Run(s, optimistic, st, init), last);
    }
  }

  /** The event at `i` of a run is a call that takes the slow path. */
  ghost predicate IsSlowCall<M>(s: Setting<M>, optimistic: bool, st: State, events: seq<Event>, i: nat)
    requires i < |events|
  {
    events[i].Aggregate? && AggregateAndVerify(s, Run(s, optimistic, st, events[..i]).entries).fellBack
  }

  ghost function SlowCalls<M>(s: Setting<M>, optimistic: bool, st: State, events: seq<Event>): set<nat> {
    set i | 0 <= i < |events| && IsSlowCall(s, optimistic, st, events, i)
  }

  lemma SlowCallPrefix<M>(s: Setting<M>, optimistic: bool, st: State, events: seq<Event>, n: nat, i: nat)
    requires i < n <= |events|
    ensures i in SlowCalls(s, optimistic, st, events[..n]) <==> i in SlowCalls(s, optimistic, st, events)
  {
    assert events[..n][..i] == events[..i] && events[..n][i] == events[i];
  }

  lemma SlowCallsStep<M>(s: Setting<M>, optimistic: bool, st: State, events: seq<Event>)
    requires events != []
    ensures var n := |events| - 1;
            SlowCalls(s, optimistic, st, events)
            == SlowCalls(s, optimistic, st, events[..n]) + if IsSlowCall(s, optimistic, st, events, n) then {n} else {}
  {
    var n := |events| - 1;
    var before, all := SlowCalls(s, optimistic, st, events[..n]), SlowCalls(s, optimistic, st, events);
    forall i: nat | i < n
      ensures i in before <==> i in all
    {
      SlowCallPrefix(s, optimistic, st, events, n, i);
    }
    OneMore(before, all, n);
  }

  lemma OneMore(before: set<nat>, all: set<nat>, n: nat)
    requires (forall i :: i in before ==> i < n) && (forall i :: i in all ==> i <= n)
    requires forall i: nat :: i < n ==> (i in before <==> i in all)
    ensures all == before + if n in all then {n} else {}
  {
  }

  lemma StepCounts<M>(s: Setting<M>, optimistic: bool, st: State, event: Event)
    ensures Step(s, optimistic, st, event).fallbacks
         == st.fallbacks + if event.Aggregate? && AggregateAndVerify(s, st.entries).fellBack then 1 else 0
  {
  }

  /** The counter of a run counts exactly the calls that take the slow path. */
  lemma {:induction false} FallbacksAreSlowCalls<M>(s: Setting<M>, optimistic: bool, st: State, events: seq<Event>)
    ensures Run(s, optimistic, st, events).fallbacks == st.fallbacks + |SlowCalls(s, optimistic, st, events)|
  {
    if events == [] {
      assert SlowCalls(s, optimistic, st, events) == {};
    } else {
      var n := |events| - 1;
      var before, calls := Run(s, optimistic, st, events[..n]), SlowCalls(s, optimistic, st, events[..n]);
      FallbacksAreSlowCalls(s, optimistic, st, events[..n]);
      SlowCallsStep(s, optimistic, st, events);
      StepCounts(s, optimistic, before, events[n]);
      CountStep(calls, n, IsSlowCall(s, optimistic, st, events, n));
    }
  }

  lemma CountStep(calls: set<nat>, n: nat, slow: bool)
    requires n !in calls
    ensures |calls + if slow then {n} else {}| == |calls| + if slow then 1 else 0
  {
    if !slow {
      assert calls + {} == calls;
    }
  }

  /** A call takes the slow path exactly when everything held aggregates but does not verify. */
  lemma SlowExactly<M>(s: Setting<M>, entries: Entries)
    ensures AggregateAndVerify(s, entries).fellBack <==>
            && TryAggregate(s, entries).Success?
            && VerifyMultiSpec(s.verifier, s.scheme, s.data, TryAggregate(s, entries).value).Failure?
  {
    OutcomeCases(s, entries, TryAggregate(s, entries));
  }

  /** What an author sent, and what of it is held at the start, is all valid. */
  ghost predicate OnlyValidFrom<M>(s: Setting<M>, author: Address, st: State, events: seq<Event>) {
    && (author in st.entries ==> s.Valid(author, st.entries[author].signature))
    && forall e :: e in events && e.Receive? && e.author == author ==> s.Valid(author, e.entry.signature)
  }

  /** A validator all of whose signatures are valid is never added to the pessimistic set. */
  lemma {:induction false} HonestNeverSuspected<M>(
    s: Setting<M>, optimistic: bool, st: State, events: seq<Event>, author: Address)
    requires OnlyValidFrom(s, author, st, events)
    ensures Spared(s, st, Run(s, optimistic, st, events), author)
  {
    if events != [] {
      var init, last := events[..|events| - 1], events[|events| - 1];
      assert forall e :: e in init ==> e in events;
      HonestNeverSuspected(s, optimistic, st, init, author);
      assert last in events;
      StepSparesHonest(s, optimistic, Run(s, optimistic, st, init), last, author);
    }
  }

  ghost predicate Spared<M>(s: Setting<M>, before: State, after: State, author: Address) {
    && (author in after.pessimistic <==> author in before.pessimistic)
    && (author in after.entries ==> s.Valid(author, after.entries[author].signature))
  }

  lemma StepSparesHonest<M>(s: Setting<M>, optimistic: bool, st: State, event: Event, author: Address)
    requires author in st.entries ==> s.Valid(author, st.entries[author].signature)
    requires event.Receive? && event.author == author ==> s.Valid(author, event.entry.signature)
    ensures Spared(s, st, Step(s, optimistic, st, event), author)
  {
    match event
    case Receive(sender, entry) => AdmitExactly(s, optimistic, st.pessimistic, sender, entry);
    case Flag(_) =>
    case Aggregate =>
      OutcomeShape(s, st.entries);
      AbsorbSparesHonest(s, st, AggregateAndVerify(s, st.entries), author);
  }

  lemma AbsorbSparesHonest<M>(s: Setting<M>, st: State, out: Outcome, author: Address)
    requires author in st.entries ==> s.Valid(author, st.entries[author].signature)
    requires Shape(s, st.entries, out)
    ensures Spared(s, st, Absorb(st, out), author)
  {
  }
}
