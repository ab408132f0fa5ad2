/** Runs on the objects of optimistic aggregation: they are runs of the value-level machine, so
    what is proved about all of its runs holds for them. */
module AggregationRuns {
  import opened Prelude
  import opened Bls
  import opened Validators
  import opened AggregationSpec
  import opened Aggregation

  /** Which author and signature a status cell belongs to. Copying a signature copies the
      reference to its cell, so a cell never serves two signatures. */
  type Register = map<StatusCell, (Address, Signature)>

  ghost predicate Listed(register: Register, author: Address, s: SignatureWithStatus) {
    s.status in register && register[s.status] == (author, s.signature)
  }

  ghost predicate Registered(register: Register, signatures: Signatures) {
    forall a :: a in signatures ==> Listed(register, a, signatures[a])
  }

  /** Every flag that is up is right. */
  ghost predicate TruthfulCells<M>(s: Setting<M>, register: Register)
    reads register.Keys
  {
    forall cell :: cell in register && cell.verified ==> s.Valid(register[cell].0, register[cell].1)
  }

  lemma RegisteredAgree<M>(s: Setting<M>, register: Register, signatures: Signatures)
    requires Registered(register, signatures)
    ensures CellsAgree(s, signatures) && Cells(signatures) <= register.Keys
  {
    forall a, b | a in signatures && b in signatures && signatures[a].status == signatures[b].status
      ensures a == b
    {
      assert Listed(register, a, signatures[a]) && Listed(register, b, signatures[b]);
    }
  }

  /** An author with a cell of its own keeps the agreement. */
  lemma AddingKeepsAgreement<M>(s: Setting<M>, signatures: Signatures, author: Address, signature: SignatureWithStatus)
    requires CellsAgree(s, signatures)
    requires forall a :: a in signatures && a != author ==> signatures[a].status != signature.status
    ensures CellsAgree(s, signatures[author := signature])
  {
  }

  ghost function StateOf<M>(shared: SharedVerifier<M>, aggregator: SignatureAggregator<M>, fallbacks: nat): State
    reads shared, aggregator, Cells(aggregator.signatures)
  {
    State(aggregator.Held(), shared.pessimisticVerifySet, fallbacks)
  }

  lemma OthersApart(register: Register, signatures: Signatures, author: Address, signature: SignatureWithStatus)
    requires Registered(register, signatures) && Listed(register, author, signature)
    ensures forall a :: a in signatures && a != author ==> signatures[a].status != signature.status
    ensures Registered(register, signatures[author := signature])
  {
  }

  /** `optimistic_verify` keeps the flags truthful. */
  method Check<M>(
    shared: SharedVerifier<M>, data: M, author: Address, signature: SignatureWithStatus, ghost register: Register)
    returns (passed: bool)
    requires Listed(register, author, signature) && TruthfulCells(shared.With(data), register)
    modifies signature.status
    ensures TruthfulCells(shared.With(data), register)
    ensures var admitted := Admit(shared.With(data), shared.optimisticSigVerification, shared.pessimisticVerifySet, author,
                                  Entry(signature.signature, old(signature.status.verified)));
            && (passed <==> admitted.Success?)
            && (passed ==> admitted.value == Entry(signature.signature, signature.status.verified))
    ensures !passed ==> signature.status.verified == old(signature.status.verified)
  {
    var admitted := shared.OptimisticVerify(author, data, signature);
    passed := admitted.Success?;
  }

  /** The view of everybody else's signatures. */
  ghost predicate ViewedApartFrom(signatures: Signatures, author: Address, view: Entries)
    reads Cells(signatures)
  {
    && view.Keys == signatures.Keys
    && forall a :: a in signatures && a != author ==> view[a] == Entry(signatures[a].signature, signatures[a].status.verified)
  }

  method Add<M>(aggregator: SignatureAggregator<M>, author: Address, signature: SignatureWithStatus, ghost held: Entries)
    requires ViewedApartFrom(aggregator.signatures, author, held)
    modifies aggregator`signatures
    ensures aggregator.signatures == old(aggregator.signatures)[author := signature]
    ensures aggregator.Held() == held[author := Entry(signature.signature, signature.status.verified)]
  {
    aggregator.AddSignature(author, signature);
    ghost var now := held[author := Entry(signature.signature, signature.status.verified)];
    assert Viewed(aggregator.signatures, now);
    ViewExactly(aggregator.signatures, now);
  }

  /** `optimistic_verify` on the aggregator's data and, if that passes, `add_signature`. */
  method Receive<M>(
    shared: SharedVerifier<M>, aggregator: SignatureAggregator<M>, author: Address, signature: SignatureWithStatus,
    ghost register: Register, ghost fallbacks: nat)
    requires Registered(register, aggregator.signatures) && Listed(register, author, signature)
    requires TruthfulCells(shared.With(aggregator.data), register)
    modifies aggregator`signatures, signature.status
    ensures StateOf(shared, aggregator, fallbacks)
         == Step(shared.With(aggregator.data), shared.optimisticSigVerification, old(StateOf(shared, aggregator, fallbacks)),
                 Event.Receive(author, Entry(signature.signature, old(signature.status.verified))))
    ensures Registered(register, aggregator.signatures)
    ensures TruthfulCells(shared.With(aggregator.data), register)
  {
    ghost var held := aggregator.Held();
    ViewExactly(aggregator.signatures, held);
    OthersApart(register, aggregator.signatures, author, signature);
    var passed := Check(shared, aggregator.data, author, signature, register);
    if passed {
      Add(aggregator, author, signature, held);
    } else {
      assert Viewed(aggregator.signatures, held);
      ViewExactly(aggregator.signatures, held);
    }
  }

  /** Every raised flag among these is right about its author's signature. */
  ghost predicate RightlyRaised<M>(s: Setting<M>, signatures: Signatures)
    reads Cells(signatures)
  {
    forall a :: a in signatures && signatures[a].status.verified ==> s.Valid(a, signatures[a].signature)
  }

  lemma FilterRaisesRightly<M>(
    s: Setting<M>, register: Register, signatures: Signatures, before: Entries, kept: Signatures)
    requires Registered(register, signatures) && Filtered(s, signatures, before, kept)
    requires forall a :: a in signatures && before[a].verified ==> s.Valid(a, signatures[a].signature)
    ensures RightlyRaised(s, signatures)
  {
    RegisteredAgree(s, register, signatures);
    forall a | a in signatures && signatures[a].status.verified
      ensures s.Valid(a, signatures[a].signature)
    {
      if !before[a].verified {
        var b :| b in signatures && signatures[b].status == signatures[a].status && s.Valid(b, signatures[b].signature);
      }
    }
  }

  lemma StepAggregate<M>(s: Setting<M>, optimistic: bool, st: State, out: Outcome)
    requires out == AggregationSpec.AggregateAndVerify(s, st.entries)
    ensures Step(s, optimistic, st, Aggregate) == Absorb(st, out)
  {
  }

  /** `aggregate_and_verify` on registered signatures. */
  method AggregateRegistered<M>(
    shared: SharedVerifier<M>, aggregator: SignatureAggregator<M>, ghost register: Register, ghost before: Entries)
    returns (r: Result<(M, AggregateSignature), VerifyError>)
    requires Registered(register, aggregator.signatures)
    requires Viewed(aggregator.signatures, before) && RightlyRaised(shared.With(aggregator.data), aggregator.signatures)
    modifies aggregator`signatures, shared`pessimisticVerifySet, Cells(aggregator.signatures)
    ensures var out := AggregationSpec.AggregateAndVerify(shared.With(aggregator.data), before);
            && aggregator.Held() == out.entries
            && shared.pessimisticVerifySet == old(shared.pessimisticVerifySet) + out.culprits
            && r == Attach(aggregator.data, out.result)
    ensures RightlyRaised(shared.With(aggregator.data), old(aggregator.signatures))
    ensures Registered(register, aggregator.signatures)
  {
    ghost var s, held := shared.With(aggregator.data), aggregator.signatures;
    ViewExactly(held, before);
    RegisteredAgree(s, register, held);
    r := aggregator.AggregateAndVerify(shared);
    if AggregationSpec.AggregateAndVerify(s, before).fellBack {
      FilterRaisesRightly(s, register, held, before, aggregator.signatures);
    } else {
      ViewExactly(held, before);
    }
  }

  lemma TruthfulIsRight<M>(s: Setting<M>, register: Register, signatures: Signatures)
    requires Registered(register, signatures) && TruthfulCells(s, register)
    ensures RightlyRaised(s, signatures)
  {
    assert forall a :: a in signatures ==> Listed(register, a, signatures[a]);
  }

  /** Flags are truthful if those of the held signatures are right and the others are truthful. */
  lemma RightIsTruthful<M>(s: Setting<M>, register: Register, signatures: Signatures)
    requires Registered(register, signatures) && RightlyRaised(s, signatures)
    requires forall cell :: cell in register && cell !in Cells(signatures) && cell.verified ==>
               s.Valid(register[cell].0, register[cell].1)
    ensures TruthfulCells(s, register)
  {
    forall cell | cell in register && cell.verified
      ensures s.Valid(register[cell].0, register[cell].1)
    {
      if cell in Cells(signatures) {
        var a :| a in signatures && signatures[a].status == cell;
        assert Listed(register, a, signatures[a]);
      }
    }
  }

  /** The same, with all flags of the register truthful. */
  method AggregateTruthfully<M>(
    shared: SharedVerifier<M>, aggregator: SignatureAggregator<M>, ghost register: Register, ghost before: Entries,
    ghost out: Outcome)
    returns (r: Result<(M, AggregateSignature), VerifyError>)
    requires Registered(register, aggregator.signatures) && Viewed(aggregator.signatures, before)
    requires TruthfulCells(shared.With(aggregator.data), register)
    requires out == AggregationSpec.AggregateAndVerify(shared.With(aggregator.data), before)
    modifies aggregator`signatures, shared`pessimisticVerifySet, Cells(aggregator.signatures)
    ensures aggregator.Held() == out.entries
    ensures shared.pessimisticVerifySet == old(shared.pessimisticVerifySet) + out.culprits
    ensures r == Attach(aggregator.data, out.result)
    ensures Registered(register, aggregator.signatures)
    ensures TruthfulCells(shared.With(aggregator.data), register)
  {
    ghost var s, held := shared.With(aggregator.data), aggregator.signatures;
    TruthfulIsRight(s, register, held);
    r := AggregateRegistered(shared, aggregator, register, before);
    RightIsTruthful(s, register, held);
  }

  /** `aggregate_and_verify`, counting fallbacks. */
  method Ask<M>(
    shared: SharedVerifier<M>, aggregator: SignatureAggregator<M>, ghost register: Register, ghost fallbacks: nat)
    returns (r: Result<(M, AggregateSignature), VerifyError>, ghost total: nat)
    requires Registered(register, aggregator.signatures)
    requires TruthfulCells(shared.With(aggregator.data), register)
    modifies aggregator`signatures, shared`pessimisticVerifySet, Cells(aggregator.signatures)
    ensures StateOf(shared, aggregator, total)
         == Step(shared.With(aggregator.data), shared.optimisticSigVerification,
                 old(StateOf(shared, aggregator, fallbacks)), Aggregate)
    ensures Registered(register, aggregator.signatures)
    ensures TruthfulCells(shared.With(aggregator.data), register)
  {
    ghost var s, st := shared.With(aggregator.data), StateOf(shared, aggregator, fallbacks);
    ghost var out := AggregationSpec.AggregateAndVerify(s, st.entries);
    ViewExactly(aggregator.signatures, st.entries);
    r := AggregateTruthfully(shared, aggregator, register, st.entries, out);
    total := Absorb(st, out).fallbacks;
    StepAggregate(s, shared.optimisticSigVerification, st, out);
  }

  // ---------- Whole runs ----------

  /** What an aggregator is asked to do. */
  datatype Request = Deliver(author: Address, signature: SignatureWithStatus) | GiveAggregate

  ghost predicate AllListed(register: Register, requests: seq<Request>) {
    forall q :: q in requests && q.Deliver? ==> Listed(register, q.author, q.signature)
  }

  /** The event a request amounts to; only the flag it comes with depends on when it is served. */
  predicate Matches(q: Request, e: Event) {
    match q
    case Deliver(author, signature) => e.Receive? && e.author == author && e.entry.signature == signature.signature
    case GiveAggregate => e.Aggregate?
  }

  ghost predicate AllMatch(requests: seq<Request>, events: seq<Event>) {
    |events| == |requests| && forall i :: 0 <= i < |requests| ==> Matches(requests[i], events[i])
  }

  /** Serving the requests from `st` on led to `state`, by way of `events`. */
  ghost predicate Traced<M>(
    s: Setting<M>, optimistic: bool, st: State, requests: seq<Request>, events: seq<Event>, state: State)
  {
    AllMatch(requests, events) && HonestFlags(s, events) && state == Run(s, optimistic, st, events)
  }

  lemma TraceStep<M>(
    s: Setting<M>, optimistic: bool, st: State, requests: seq<Request>, events: seq<Event>, state: State, q: Request, e: Event)
    requires Traced(s, optimistic, st, requests, events, state) && Matches(q, e)
    requires e.Receive? && e.entry.verified ==> s.Valid(e.author, e.entry.signature)
    ensures Traced(s, optimistic, st, requests + [q], events + [e], Step(s, optimistic, state, e))
  {
    assert (events + [e])[..|events + [e]| - 1] == events;
  }

  /** One request on the objects is one step of the machine. */
  method ServeOne<M>(
    shared: SharedVerifier<M>, aggregator: SignatureAggregator<M>, q: Request, ghost register: Register, ghost fallbacks: nat)
    returns (ghost e: Event, ghost total: nat)
    requires Registered(register, aggregator.signatures) && (q.Deliver? ==> Listed(register, q.author, q.signature))
    requires TruthfulCells(shared.With(aggregator.data), register)
    modifies aggregator`signatures, shared`pessimisticVerifySet, register.Keys
    ensures Matches(q, e)
    ensures e.Receive? && e.entry.verified ==> shared.With(aggregator.data).Valid(e.author, e.entry.signature)
    ensures StateOf(shared, aggregator, total)
         == Step(shared.With(aggregator.data), shared.optimisticSigVerification, old(StateOf(shared, aggregator, fallbacks)), e)
    ensures Registered(register, aggregator.signatures)
    ensures TruthfulCells(shared.With(aggregator.data), register)
  {
    match q
    case Deliver(author, signature) =>
      e := Event.Receive(author, Entry(signature.signature, signature.status.verified));
      Receive(shared, aggregator, author, signature, register, fallbacks);
      total := fallbacks;
    case GiveAggregate =>
      e := Aggregate;
      RegisteredAgree(shared.With(aggregator.data), register, aggregator.signatures);
      var r;
      r, total := Ask(shared, aggregator, register, fallbacks);
  }

  /** A sequence of requests on the objects is a run of the machine. */
  method ServeAll<M>(
    shared: SharedVerifier<M>, aggregator: SignatureAggregator<M>, requests: seq<Request>, ghost register: Register)
    returns (ghost events: seq<Event>, ghost fallbacks: nat)
    requires Registered(register, aggregator.signatures) && AllListed(register, requests)
    requires TruthfulCells(shared.With(aggregator.data), register)
    modifies aggregator`signatures, shared`pessimisticVerifySet, register.Keys
    ensures Traced(shared.With(aggregator.data), shared.optimisticSigVerification, old(StateOf(shared, aggregator, 0)),
                   requests, events, StateOf(shared, aggregator, fallbacks))
    ensures Registered(register, aggregator.signatures)
    ensures TruthfulCells(shared.With(aggregator.data), register)
    decreases |requests|
  {
    if requests == [] {
      return [], 0;
    }
    var init, q := requests[..|requests| - 1], requests[|requests| - 1];
    assert q in requests && requests == init + [q];
    ghost var s, optimistic, st := shared.With(aggregator.data), shared.optimisticSigVerification, StateOf(shared, aggregator, 0);
    ghost var earlier, count := ServeAll(shared, aggregator, init, register);
    ghost var state := StateOf(shared, aggregator, count);
    ghost var e, total := ServeOne(shared, aggregator, q, register, count);
    TraceStep(s, optimistic, st, init, earlier, state, q, e);
    return earlier + [e], total;
  }

  /** What is held of an author and what it sends is all valid. */
  ghost predicate SendsOnlyValid<M>(s: Setting<M>, author: Address, held: Entries, requests: seq<Request>) {
    && (author in held ==> s.Valid(author, held[author].signature))
    && forall q :: q in requests && q.Deliver? && q.author == author ==> s.Valid(author, q.signature.signature)
  }

  /** Whatever is delivered and asked for, in whatever order, the slow path is taken at most
      once per validator that was not suspected at the start, and a validator all of whose
      signatures are valid is not added to the pessimistic set. */
  method Serve<M(!new)>(
    shared: SharedVerifier<M>, aggregator: SignatureAggregator<M>, requests: seq<Request>, ghost register: Register)
    returns (ghost fallbacks: nat)
    requires Registered(register, aggregator.signatures) && AllListed(register, requests)
    requires TruthfulCells(shared.With(aggregator.data), register)
    requires Sound(shared.With(aggregator.data)) && Invariant(shared.With(aggregator.data), StateOf(shared, aggregator, 0))
    modifies aggregator`signatures, shared`pessimisticVerifySet, register.Keys
    ensures fallbacks <= |Unsuspected(shared.verifier, old(shared.pessimisticVerifySet))|
    ensures forall author :: SendsOnlyValid(shared.With(aggregator.data), author, old(aggregator.Held()), requests) ==>
              (author in shared.pessimisticVerifySet <==> author in old(shared.pessimisticVerifySet))
    ensures exists events ::
              Traced(shared.With(aggregator.data), shared.optimisticSigVerification, old(StateOf(shared, aggregator, 0)),
                     requests, events, StateOf(shared, aggregator, fallbacks))
  {
    ghost var s, optimistic, st := shared.With(aggregator.data), shared.optimisticSigVerification, StateOf(shared, aggregator, 0);
    ghost var events;
    events, fallbacks := ServeAll(shared, aggregator, requests, register);
    FallbacksBounded(s, optimistic, st, events);
    forall author | SendsOnlyValid(s, author, st.entries, requests)
      ensures author in shared.pessimisticVerifySet <==> author in st.pessimistic
    {
      MatchingIsValid(s, author, st, requests, events);
      HonestNeverSuspected(s, optimistic, st, events, author);
    }
  }

  lemma MatchingIsValid<M>(s: Setting<M>, author: Address, st: State, requests: seq<Request>, events: seq<Event>)
    requires AllMatch(requests, events) && SendsOnlyValid(s, author, st.entries, requests)
    ensures OnlyValidFrom(s, author, st, events)
  {
    forall e | e in events && e.Receive? && e.author == author
      ensures s.Valid(author, e.entry.signature)
    {
      var i :| 0 <= i < |events| && events[i] == e;
      assert Matches(requests[i], events[i]) && requests[i] in requests;
    }
  }
}
