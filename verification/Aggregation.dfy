/** The objects of optimistic signature aggregation: status flags shared between copies of a
    signature, the verifier's pessimistic set, and the aggregator. Each method is tied to a
    function of `AggregationSpec`. */
module Aggregation {
  import opened Prelude
  import opened Bls
  import opened Validators
  import opened AggregationSpec

  /** The shared `Arc<AtomicBool>`. */
  class StatusCell {
    var verified: bool

    constructor (initial: bool)
      ensures verified == initial
    {
      verified := initial;
    }
  }

  /** Copies of one of these share the cell. */
  datatype SignatureWithStatus = SignatureWithStatus(signature: Signature, status: StatusCell)

  /** `SignatureWithStatus::from`. */
  method FromSignature(signature: Signature) returns (s: SignatureWithStatus)
    ensures s.signature == signature && fresh(s.status) && !s.status.verified
  {
    var cell := new StatusCell(false);
    s := SignatureWithStatus(signature, cell);
  }

  type Signatures = map<Address, SignatureWithStatus>

  ghost function Cells(signatures: Signatures): set<StatusCell> {
    set a | a in signatures :: signatures[a].status
  }

  /** The held signatures with the flags' current values. */
  ghost function View(signatures: Signatures): Entries
    reads Cells(signatures)
  {
    map a | a in signatures :: Entry(signatures[a].signature, signatures[a].status.verified)
  }

  ghost predicate Viewed(signatures: Signatures, view: Entries)
    reads Cells(signatures)
  {
    && view.Keys == signatures.Keys
    && forall a :: a in signatures ==> view[a] == Entry(signatures[a].signature, signatures[a].status.verified)
  }

  lemma ViewExactly(signatures: Signatures, view: Entries)
    ensures Viewed(signatures, view) <==> view == View(signatures)
  {
  }

  /** Authors that share a status cell agree on whether their signatures are valid. It holds
      in particular when every author has a cell of its own. */
  ghost predicate CellsAgree<M>(s: Setting<M>, signatures: Signatures) {
    forall a, b :: a in signatures && b in signatures && signatures[a].status == signatures[b].status ==>
      s.Valid(a, signatures[a].signature) == s.Valid(b, signatures[b].signature)
  }

  lemma FewerCellsAgree<M>(s: Setting<M>, signatures: Signatures, kept: Signatures)
    requires CellsAgree(s, signatures)
    requires kept.Keys <= signatures.Keys && forall a :: a in kept ==> kept[a] == signatures[a]
    ensures CellsAgree(s, kept)
  {
  }

  class SharedVerifier<!M> {
    const verifier: ValidatorVerifier
    const scheme: Scheme<M>
    var pessimisticVerifySet: set<Address>
    var optimisticSigVerification: bool

    constructor (infos: seq<ValidatorConsensusInfo>, scheme: Scheme<M>)
      ensures verifier == NewVerifier(infos) && this.scheme == scheme
      ensures pessimisticVerifySet == {} && !optimisticSigVerification
    {
      this.verifier := NewVerifier(infos);
      this.scheme := scheme;
      pessimisticVerifySet := {};
      optimisticSigVerification := false;
    }

    ghost function With(data: M): Setting<M> {
      Setting(verifier, scheme, data)
    }

    method SetOptimisticSigVerificationFlag(flag: bool)
      modifies this`optimisticSigVerification
      ensures optimisticSigVerification == flag
    {
      optimisticSigVerification := flag;
    }

    method AddPessimisticVerifySet(author: Address)
      modifies this`pessimisticVerifySet
      ensures pessimisticVerifySet == old(pessimisticVerifySet) + {author}
    {
      pessimisticVerifySet := pessimisticVerifySet + {author};
    }

    /** `optimistic_verify`: may raise the flag, and changes nothing else. */
    method OptimisticVerify(author: Address, message: M, s: SignatureWithStatus) returns (r: Result<(), VerifyError>)
      modifies s.status
      ensures var admitted := Admit(With(message), optimisticSigVerification, pessimisticVerifySet, author,
                                    Entry(s.signature, old(s.status.verified)));
              && (r.Success? <==> admitted.Success?)
              && (admitted.Success? ==> admitted.value == Entry(s.signature, s.status.verified))
              && (admitted.Failure? ==> r == Failure(admitted.error) && s.status.verified == old(s.status.verified))
    {
      if verifier.GetPublicKey(author) == None {
        return Failure(UnknownAuthor);
      }
      if (!optimisticSigVerification || author in pessimisticVerifySet) && !s.status.verified {
        var _ :- verifier.Verify(scheme, author, message, s.signature);
        s.status.verified := true;
      }
      return Success(());
    }

    /** The body of the filter for one entry. */
    method FilterOne(author: Address, message: M, signatures: Signatures, ghost now: Entries) returns (keep: bool)
      requires author in signatures && Viewed(signatures, now)
      modifies this`pessimisticVerifySet, signatures[author].status
      ensures keep == Passes(With(message), author, now[author])
      ensures Viewed(signatures, SetFlag(signatures, now, author, keep))
      ensures keep ==> pessimisticVerifySet == old(pessimisticVerifySet)
      ensures !keep ==> pessimisticVerifySet == old(pessimisticVerifySet) + {author}
    {
      var signature := signatures[author];
      if signature.status.verified || verifier.Verify(scheme, author, message, signature.signature).Success? {
        signature.status.verified := true;
        keep := true;
      } else {
        AddPessimisticVerifySet(author);
        keep := false;
      }
    }

    /** The loop body of the filter. */
    method FilterNext(
      message: M, signatures: Signatures, ghost before: Entries, ghost now: Entries, ghost rest: set<Address>,
      kept: Signatures, author: Address)
      returns (stillKept: Signatures, ghost after: Entries)
      requires author in rest && rest <= signatures.Keys
      requires Viewed(signatures, now) && Halfway(With(message), before, signatures, now, rest, kept)
      modifies this`pessimisticVerifySet, signatures[author].status
      ensures Viewed(signatures, after) && Halfway(With(message), before, signatures, after, rest - {author}, stillKept)
      ensures stillKept.Keys - {author} == kept.Keys
      ensures pessimisticVerifySet == old(pessimisticVerifySet) + ({author} - stillKept.Keys)
    {
      var keep := FilterOne(author, message, signatures, now);
      FilterStep(With(message), before, signatures, now, rest, kept, author, keep);
      KeysStep(kept, author, signatures[author]);
      after := SetFlag(signatures, now, author, keep);
      stillKept := kept;
      if keep {
        stillKept := kept[author := signatures[author]];
      }
    }

    /** The loop of the filter. */
    method FilterEach(message: M, signatures: Signatures, ghost before: Entries)
      returns (kept: Signatures, ghost now: Entries)
      requires Viewed(signatures, before)
      modifies this`pessimisticVerifySet, Cells(signatures)
      ensures Viewed(signatures, now) && Halfway(With(message), before, signatures, now, {}, kept)
      ensures pessimisticVerifySet == old(pessimisticVerifySet) + (signatures.Keys - kept.Keys)
    {
      ghost var suspects := pessimisticVerifySet;
      kept, now := map[], before;
      var rest := signatures.Keys;
      SuspectsInTheEnd(suspects, rest, {});
      while rest != {}
        invariant rest <= signatures.Keys
        invariant Viewed(signatures, now) && Halfway(With(message), before, signatures, now, rest, kept)
        invariant pessimisticVerifySet == Suspects(suspects, signatures.Keys, rest, kept.Keys)
        decreases rest
      {
        var author :| author in rest;
        ghost var keptBefore := kept.Keys;
        kept, now := FilterNext(message, signatures, before, now, rest, kept, author);
        SuspectsStep(suspects, signatures.Keys, rest, keptBefore, kept.Keys, author);
        rest := rest - {author};
      }
      SuspectsInTheEnd(suspects, signatures.Keys, kept.Keys);
    }

    /** `filter_invalid_signatures`, one entry after the other, in any order. Where authors
        that share a cell agree, the outcome does not depend on that order. */
    method FilterInvalidSignatures(message: M, signatures: Signatures) returns (kept: Signatures)
      modifies this`pessimisticVerifySet, Cells(signatures)
      ensures Filtered(With(message), signatures, old(View(signatures)), kept)
      ensures pessimisticVerifySet == old(pessimisticVerifySet) + (signatures.Keys - kept.Keys)
      ensures CellsAgree(With(message), signatures) ==>
                FilteredExactly(With(message), signatures, old(View(signatures)), kept)
    {
      ghost var before, now := View(signatures), map[];
      ViewExactly(signatures, before);
      kept, now := FilterEach(message, signatures, before);
      FilterDone(With(message), before, signatures, now, kept);
      assert Viewed(kept, KeptView(now, kept));
    }
  }

  lemma KeysStep(kept: Signatures, author: Address, signature: SignatureWithStatus)
    requires author !in kept
    ensures kept.Keys - {author} == kept.Keys == kept[author := signature].Keys - {author}
  {
  }

  /** The pessimistic set with `rest` still to be looked at. */
  ghost function Suspects(initial: set<Address>, all: set<Address>, rest: set<Address>, kept: set<Address>): set<Address> {
    initial + (all - rest - kept)
  }

  lemma SuspectsStep(
    initial: set<Address>, all: set<Address>, rest: set<Address>, kept: set<Address>, stillKept: set<Address>, author: Address)
    requires author in rest && rest <= all && kept <= all - rest && stillKept - {author} == kept
    ensures Suspects(initial, all, rest - {author}, stillKept)
         == Suspects(initial, all, rest, kept) + ({author} - stillKept)
  {
  }

  lemma SuspectsInTheEnd(initial: set<Address>, all: set<Address>, kept: set<Address>)
    ensures Suspects(initial, all, {}, kept) == initial + (all - kept)
    ensures Suspects(initial, all, all, {}) == initial
  {
  }

  /** Some author with a valid signature shares the cell. */
  ghost predicate Vouched<M>(s: Setting<M>, signatures: Signatures, a: Address)
    requires a in signatures
  {
    exists b :: b in signatures && signatures[b].status == signatures[a].status && s.Valid(b, signatures[b].signature)
  }

  /** What the filter does to flags: they are only raised, and only where somebody who shares
      the cell has a valid signature. */
  ghost predicate Raised<M>(s: Setting<M>, signatures: Signatures, before: Entries, now: Entries) {
    && before.Keys == now.Keys == signatures.Keys
    && forall a :: a in signatures ==>
         && now[a].signature == before[a].signature == signatures[a].signature
         && (before[a].verified ==> now[a].verified)
         && (now[a].verified ==> before[a].verified || Vouched(s, signatures, a))
  }

  /** What the filter does in any case: flags are only raised, and only where somebody who
      shares the cell has a valid signature; everything that passed at the start is kept, and
      nothing unless its flag ends up raised. */
  ghost predicate Filtered<M>(s: Setting<M>, signatures: Signatures, before: Entries, kept: Signatures)
    reads Cells(signatures)
  {
    && before.Keys == signatures.Keys && kept.Keys <= signatures.Keys
    && forall a :: a in signatures ==>
         && (before[a].verified ==> signatures[a].status.verified)
         && (signatures[a].status.verified ==> before[a].verified || Vouched(s, signatures, a))
         && (Passes(s, a, before[a]) ==> a in kept)
         && (a in kept ==> kept[a] == signatures[a] && signatures[a].status.verified)
  }

  /** Where authors that share a cell agree: exactly what passes is kept, and the flags of what
      is dropped stay down. */
  ghost predicate FilteredExactly<M>(s: Setting<M>, signatures: Signatures, before: Entries, kept: Signatures)
    reads Cells(signatures), Cells(kept)
  {
    && Viewed(kept, Kept(s, before))
    && signatures.Keys - kept.Keys == Culprits(s, before)
    && CellsAgree(s, kept)
    && forall a :: a in signatures && a !in kept ==> !signatures[a].status.verified
  }

  /** The same with `rest` still to be looked at. */
  ghost predicate Halfway<M>(
    s: Setting<M>, before: Entries, signatures: Signatures, now: Entries, rest: set<Address>, kept: Signatures)
  {
    && Raised(s, signatures, before, now)
    && kept.Keys <= signatures.Keys - rest
    && (forall a :: a in kept ==> kept[a] == signatures[a] && now[a].verified)
    && forall a :: a in signatures && a !in rest && Passes(s, a, before[a]) ==> a in kept
  }

  /** The view after writing the flag of `author`: everyone sharing the cell sees it. */
  ghost function SetFlag(signatures: Signatures, now: Entries, author: Address, flag: bool): Entries
    requires now.Keys == signatures.Keys && author in signatures
  {
    map a | a in signatures ::
      Entry(now[a].signature, if signatures[a].status == signatures[author].status then flag else now[a].verified)
  }

  lemma RaisedStep<M>(s: Setting<M>, before: Entries, signatures: Signatures, now: Entries, author: Address, keep: bool)
    requires author in signatures && Raised(s, signatures, before, now) && SharedFlags(signatures, now)
    requires keep == Passes(s, author, now[author])
    ensures Raised(s, signatures, before, SetFlag(signatures, now, author, keep))
  {
    if keep && !now[author].verified {
      forall a | a in signatures && signatures[a].status == signatures[author].status
        ensures Vouched(s, signatures, a)
      {
        assert s.Valid(author, signatures[author].signature);
      }
    }
  }

  lemma FilterStep<M>(
    s: Setting<M>, before: Entries, signatures: Signatures, now: Entries, rest: set<Address>, kept: Signatures,
    author: Address, keep: bool)
    requires author in signatures && author in rest && before.Keys == now.Keys == signatures.Keys
    requires Halfway(s, before, signatures, now, rest, kept) && SharedFlags(signatures, now)
    requires keep == Passes(s, author, now[author])
    ensures keep ==>
              Halfway(s, before, signatures, SetFlag(signatures, now, author, true), rest - {author},
                      kept[author := signatures[author]])
    ensures !keep ==>
              Halfway(s, before, signatures, SetFlag(signatures, now, author, false), rest - {author}, kept)
  {
    RaisedStep(s, before, signatures, now, author, keep);
  }

  /** A view gives one value to a shared cell, and carries the held signatures. */
  ghost predicate SharedFlags(signatures: Signatures, view: Entries)
    requires view.Keys == signatures.Keys
  {
    && (forall a :: a in signatures ==> view[a].signature == signatures[a].signature)
    && forall a, b :: a in signatures && b in signatures && signatures[a].status == signatures[b].status ==>
         view[a].verified == view[b].verified
  }

  /** The view of what is kept. */
  ghost function KeptView(now: Entries, kept: Signatures): Entries
    requires kept.Keys <= now.Keys
  {
    map a | a in kept :: now[a]
  }

  lemma FilterDone<M>(s: Setting<M>, before: Entries, signatures: Signatures, now: Entries, kept: Signatures)
    requires Halfway(s, before, signatures, now, {}, kept) && SharedFlags(signatures, before)
    ensures kept.Keys <= now.Keys
    ensures CellsAgree(s, signatures) ==>
              && KeptView(now, kept) == Kept(s, before) && CellsAgree(s, kept)
              && signatures.Keys - kept.Keys == Culprits(s, before)
              && forall a :: a in signatures && a !in kept ==> !now[a].verified
  {
    if CellsAgree(s, signatures) {
      FewerCellsAgree(s, signatures, kept);
      forall a | a in signatures
        ensures now[a].verified ==> Passes(s, a, before[a])
      {
      }
    }
  }

  function PlainVotes(signatures: Signatures, authors: seq<Address>): seq<Vote>
    requires forall i :: 0 <= i < |authors| ==> authors[i] in signatures.Keys
  {
    seq(|authors|, i requires 0 <= i < |authors| => (authors[i], signatures[authors[i]].signature))
  }

  lemma PlainVotesView(signatures: Signatures, view: Entries)
    requires view.Keys == signatures.Keys && SharedFlags(signatures, view)
    ensures forall i :: 0 <= i < |signatures.Keys| ==> Ascending(signatures.Keys)[i] in signatures.Keys
    ensures PlainVotes(signatures, Ascending(signatures.Keys)) == Votes(view)
  {
    var authors := Ascending(signatures.Keys);
    PlainVotesViewAt(signatures, view, authors);
  }

  lemma PlainVotesViewAt(signatures: Signatures, view: Entries, authors: seq<Address>)
    requires view.Keys == signatures.Keys && SharedFlags(signatures, view)
    requires forall i :: 0 <= i < |authors| ==> authors[i] in signatures.Keys
    ensures PlainVotes(signatures, authors) == VotesOf(view, authors)
  {
  }

  method CheckAndAggregate<M>(v: ValidatorVerifier, scheme: Scheme<M>, votes: seq<Vote>)
    returns (r: Result<AggregateSignature, VerifyError>)
    ensures r == TryAggregateVotes(v, scheme, votes)
  {
    var sum :- SumVotingPower(v, Voters(votes));
    var _ :- CheckAggregatedVotingPower(v, sum, true);
    r := AggregateSignatures(v, scheme, votes);
  }

  /** The data goes out with the aggregate. */
  function Attach<M>(data: M, result: Result<AggregateSignature, VerifyError>)
    : (r: Result<(M, AggregateSignature), VerifyError>)
    ensures r.Success? <==> result.Success?
    ensures r.Success? ==> r.value.0 == data && r.value.1 == result.value
    ensures r.Failure? ==> r.error == result.error
  {
    match result
    case Success(multi) => Success((data, multi))
    case Failure(error) => Failure(error)
  }

  class SignatureAggregator<!M> {
    const data: M
    var signatures: Signatures

    constructor (data: M)
      ensures this.data == data && signatures == map[]
    {
      this.data := data;
      signatures := map[];
    }

    ghost function Held(): Entries
      reads this, Cells(signatures)
    {
      View(signatures)
    }

    /** `add_signature`: shares the cell, and replaces an earlier signature of the validator. */
    method AddSignature(validator: Address, signature: SignatureWithStatus)
      modifies this`signatures
      ensures signatures == old(signatures)[validator := signature]
      ensures Held() == old(Held())[validator := Entry(signature.signature, signature.status.verified)]
    {
      signatures := signatures[validator := signature];
    }

    /** `verified_voters`, and its complement `unverified_voters`. */
    method VerifiedVoters() returns (voters: set<Address>)
      ensures forall a :: a in voters <==> a in Held() && Held()[a].verified
    {
      voters := set a | a in signatures && signatures[a].status.verified;
    }

    method TryAggregate(shared: SharedVerifier<M>) returns (r: Result<AggregateSignature, VerifyError>)
      ensures r == AggregationSpec.TryAggregate(shared.With(data), Held())
    {
      ghost var held := Held();
      ViewExactly(signatures, held);
      PlainVotesView(signatures, held);
      var voters := AscendingOf(signatures.Keys);
      r := CheckAndAggregate(shared.verifier, shared.scheme, PlainVotes(signatures, voters));
      ViewExactly(signatures, held);
    }

    /** `filter_invalid_signatures` of the aggregator. */
    method FilterInvalidSignatures(shared: SharedVerifier<M>)
      modifies this`signatures, shared`pessimisticVerifySet, Cells(signatures)
      ensures Filtered(shared.With(data), old(signatures), old(Held()), signatures)
      ensures shared.pessimisticVerifySet == old(shared.pessimisticVerifySet) + (old(signatures).Keys - signatures.Keys)
      ensures CellsAgree(shared.With(data), old(signatures)) ==>
                FilteredExactly(shared.With(data), old(signatures), old(Held()), signatures)
    {
      var kept := shared.FilterInvalidSignatures(data, signatures);
      signatures := kept;
    }

    /** The fast path: aggregate everything, then check once. */
    method TryFastPath(shared: SharedVerifier<M>)
      returns (first: Result<AggregateSignature, VerifyError>, accepted: bool)
      ensures Held() == old(Held())
      ensures first == AggregationSpec.TryAggregate(shared.With(data), Held())
      ensures accepted <==> first.Success? && VerifyMultiSpec(shared.verifier, shared.scheme, data, first.value).Success?
    {
      ghost var held := Held();
      ViewExactly(signatures, held);
      first := TryAggregate(shared);
      ViewExactly(signatures, held);
      accepted := false;
      if first.Success? {
        var checked := VerifyMultiSignatures(shared.verifier, shared.scheme, data, first.value);
        accepted := checked.Success?;
      }
      assert Viewed(signatures, held);
      ViewExactly(signatures, held);
    }

    /** The slow path: drop what is invalid, then aggregate what is left. */
    method FallBack(shared: SharedVerifier<M>) returns (second: Result<AggregateSignature, VerifyError>)
      modifies this`signatures, shared`pessimisticVerifySet, Cells(signatures)
      ensures Filtered(shared.With(data), old(signatures), old(Held()), signatures)
      ensures shared.pessimisticVerifySet == old(shared.pessimisticVerifySet) + (old(signatures).Keys - signatures.Keys)
      ensures second == AggregationSpec.TryAggregate(shared.With(data), Held())
      ensures CellsAgree(shared.With(data), old(signatures)) ==>
                FilteredExactly(shared.With(data), old(signatures), old(Held()), signatures)
    {
      FilterInvalidSignatures(shared);
      second := TryAggregate(shared);
    }

    /** `aggregate_and_verify`. Nothing happens to what is held unless the aggregate is bad;
        then the held signatures are filtered and aggregated again. Where authors that share
        a cell agree, the outcome is that of the call on values. */
    method AggregateAndVerify(shared: SharedVerifier<M>) returns (r: Result<(M, AggregateSignature), VerifyError>)
      modifies this`signatures, shared`pessimisticVerifySet, Cells(signatures)
      ensures !AggregationSpec.AggregateAndVerify(shared.With(data), old(Held())).fellBack ==>
                && Held() == old(Held()) && signatures == old(signatures)
                && shared.pessimisticVerifySet == old(shared.pessimisticVerifySet)
                && r == Attach(data, AggregationSpec.TryAggregate(shared.With(data), Held()))
      ensures AggregationSpec.AggregateAndVerify(shared.With(data), old(Held())).fellBack ==>
                && Filtered(shared.With(data), old(signatures), old(Held()), signatures)
                && shared.pessimisticVerifySet == old(shared.pessimisticVerifySet) + (old(signatures).Keys - signatures.Keys)
                && r == Attach(data, AggregationSpec.TryAggregate(shared.With(data), Held()))
      ensures CellsAgree(shared.With(data), old(signatures)) ==>
                var out := AggregationSpec.AggregateAndVerify(shared.With(data), old(Held()));
                && Held() == out.entries
                && shared.pessimisticVerifySet == old(shared.pessimisticVerifySet) + out.culprits
                && r == Attach(data, out.result)
                && CellsAgree(shared.With(data), signatures)
    {
      ghost var before := Held();
      var first, accepted := TryFastPath(shared);
      OutcomeCases(shared.With(data), before, first);
      if first.Failure? || accepted {
        return Attach(data, first);
      }
      var second := FallBack(shared);
      ViewExactly(signatures, Kept(shared.With(data), before));
      return Attach(data, second);
    }
  }
}
