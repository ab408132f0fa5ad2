/** Weighted validator sets: `validator_verifier.rs` and `aggregate_signature.rs`. */
module Validators {
  import opened Prelude
  import opened Bls

  type Address = nat

  datatype VerifyError =
    | UnknownAuthor
    | TooLittleVotingPower(votingPower: nat, expectedVotingPower: nat)
    | EmptySignature
    | InvalidMultiSignature
    | FailedToAggregatePubKey
    | FailedToAggregateSignature
    | InvalidBitVec

  datatype ValidatorConsensusInfo =
    ValidatorConsensusInfo(address: Address, publicKey: PublicKey, votingPower: nat)

  // ---------- Bit masks ----------

  const BUCKET_SIZE: nat := 8
  const U16_LIMIT: nat := 0x1_0000

  /** The `as u16` cast. */
  function AsU16(n: nat): nat {
    n % U16_LIMIT
  }

  function RequiredBuckets(bits: nat): nat {
    if bits == 0 then 0 else (bits - 1) / BUCKET_SIZE + 1
  }

  /** A growable bit vector: how many buckets it holds, and which bits are set. */
  datatype BitVec = BitVec(buckets: nat, ones: set<nat>) {
    static function WithNumBits(bits: nat): BitVec {
      BitVec(RequiredBuckets(bits), {})
    }

    /** Setting a bit past the end grows the vector. */
    function Set(position: nat): BitVec {
      var needed := position / BUCKET_SIZE + 1;
      BitVec(if needed > buckets then needed else buckets, ones + {position})
    }

    function LastSetBit(): Option<nat> {
      if ones == {} then None else Some(Maximum(ones))
    }
  }

  datatype AggregateSignature = AggregateSignature(bitmask: BitVec, sig: Option<Signature>)

  /** `get_signers_addresses`: the addresses whose position is set. */
  method GetSignersAddresses(multi: AggregateSignature, addresses: seq<Address>) returns (signers: seq<Address>)
    ensures signers == Select(addresses, multi.bitmask.ones, |addresses|)
  {
    signers := [];
    for index := 0 to |addresses|
      invariant signers == Select(addresses, multi.bitmask.ones, index)
    {
      if AsU16(index) in multi.bitmask.ones {
        signers := signers + [addresses[index]];
      }
    }
  }

  /** The first `upto` addresses whose (truncated) position is in `mask`. */
  function Select(addresses: seq<Address>, mask: set<nat>, upto: nat): seq<Address>
    requires upto <= |addresses|
  {
    if upto == 0 then [] else
      Select(addresses, mask, upto - 1)
      + if AsU16(upto - 1) in mask then [addresses[upto - 1]] else []
  }

  // ---------- The validator set ----------

  function TotalPower(infos: seq<ValidatorConsensusInfo>): nat {
    if infos == [] then 0
    else TotalPower(infos[..|infos| - 1]) + infos[|infos| - 1].votingPower
  }

  /** The voting power held at the positions in `mask`. */
  ghost function Power(infos: seq<ValidatorConsensusInfo>, mask: set<nat>): nat {
    if infos == [] then 0
    else
      var last := |infos| - 1;
      Power(infos[..last], mask) + if last in mask then infos[last].votingPower else 0
  }

  /** `build_index`: a later entry with the same address overwrites an earlier one. */
  function IndexOf(infos: seq<ValidatorConsensusInfo>): (index: map<Address, nat>)
    ensures forall a :: a in index ==> index[a] < |infos| && infos[index[a]].address == a
    ensures forall i :: 0 <= i < |infos| ==> infos[i].address in index && i <= index[infos[i].address]
  {
    if infos == [] then map[] else
      var last := |infos| - 1;
      var rest := IndexOf(infos[..last]);
      assert forall i :: 0 <= i < last ==> infos[..last][i] == infos[i];
      rest[infos[last].address := last]
  }

  /** The part of the verifier that equality and serialization see. The total and the
      address index are cached in the program; here they are computed from `infos`. */
  datatype ValidatorVerifier = ValidatorVerifier(infos: seq<ValidatorConsensusInfo>, quorumVotingPower: nat) {

    function TotalVotingPower(): nat {
      TotalPower(infos)
    }

    function AddressIndex(): map<Address, nat> {
      IndexOf(infos)
    }

    function Addresses(): seq<Address> {
      AddressesOf(infos)
    }

    function GetPublicKey(author: Address): Option<PublicKey> {
      var index := AddressIndex();
      if author in index then Some(infos[index[author]].publicKey) else None
    }

    function GetVotingPower(author: Address): Option<nat> {
      var index := AddressIndex();
      if author in index then Some(infos[index[author]].votingPower) else None
    }

    /** `verify`: one signature by one author. */
    function Verify<M>(scheme: Scheme<M>, author: Address, message: M, signature: Signature): Result<(), VerifyError> {
      match GetPublicKey(author)
      case None => Failure(UnknownAuthor)
      case Some(key) => if scheme.valid(key, message, signature) then Success(()) else Failure(InvalidMultiSignature)
    }
  }

  /** `new`. */
  function NewVerifier(infos: seq<ValidatorConsensusInfo>): ValidatorVerifier {
    ValidatorVerifier(infos, if infos == [] then 0 else TotalPower(infos) * 2 / 3 + 1)
  }

  /** What the rest of the system guarantees of a validator set: distinct addresses,
      the default quorum, and few enough members for 16-bit positions. */
  ghost predicate WellFormed(v: ValidatorVerifier) {
    && Distinct(v.Addresses())
    && v == NewVerifier(v.infos)
    && |v.infos| < U16_LIMIT
  }

  // ---------- Voting power ----------

  predicate AllKnown(v: ValidatorVerifier, authors: seq<Address>) {
    forall i :: 0 <= i < |authors| ==> authors[i] in v.AddressIndex()
  }

  function PowerOfAuthors(v: ValidatorVerifier, authors: seq<Address>): nat
    requires AllKnown(v, authors)
  {
    if authors == [] then 0 else
      var last := |authors| - 1;
      PowerOfAuthors(v, authors[..last]) + v.infos[v.AddressIndex()[authors[last]]].votingPower
  }

  function SumVotingPowerSpec(v: ValidatorVerifier, authors: seq<Address>): Result<nat, VerifyError> {
    if AllKnown(v, authors) then Success(PowerOfAuthors(v, authors)) else Failure(UnknownAuthor)
  }

  /** `sum_voting_power`, leaving at the first unknown author. */
  method SumVotingPower(v: ValidatorVerifier, authors: seq<Address>) returns (r: Result<nat, VerifyError>)
    ensures r == SumVotingPowerSpec(v, authors)
  {
    var sum := 0;
    for k := 0 to |authors|
      invariant AllKnown(v, authors[..k]) && sum == PowerOfAuthors(v, authors[..k])
    {
      match v.GetVotingPower(authors[k]) {
        case None =>
          return Failure(UnknownAuthor);
        case Some(power) =>
          assert authors[..k + 1][..k] == authors[..k];
          sum := sum + power;
      }
    }
    assert authors[..|authors|] == authors;
    return Success(sum);
  }

  /** The power `check_aggregated_voting_power` asks for, or `None` where the unsigned
      subtraction underflows. */
  function PowerTarget(v: ValidatorVerifier, checkSuperMajority: bool): Option<nat> {
    if checkSuperMajority then Some(v.quorumVotingPower)
    else if v.quorumVotingPower <= v.TotalVotingPower() then Some(v.TotalVotingPower() - v.quorumVotingPower + 1)
    else None
  }

  function CheckAggregatedVotingPower(v: ValidatorVerifier, power: nat, checkSuperMajority: bool)
    : Result<nat, VerifyError>
    requires PowerTarget(v, checkSuperMajority).Some?
  {
    var target := PowerTarget(v, checkSuperMajority).value;
    if power < target then Failure(TooLittleVotingPower(power, target)) else Success(power)
  }

  function CheckVotingPower(v: ValidatorVerifier, authors: seq<Address>, checkSuperMajority: bool)
    : Result<nat, VerifyError>
    requires PowerTarget(v, checkSuperMajority).Some?
  {
    var power :- SumVotingPowerSpec(v, authors);
    CheckAggregatedVotingPower(v, power, checkSuperMajority)
  }

  // ---------- Multi-signatures ----------

  function CheckNumOfVoters(numValidators: nat, mask: BitVec): Result<(), VerifyError> {
    if mask.buckets != RequiredBuckets(numValidators) then Failure(InvalidBitVec)
    else match mask.LastSetBit()
      case Some(bit) => if bit >= numValidators then Failure(InvalidBitVec) else Success(())
      case None => Success(())
  }

  predicate InBounds(v: ValidatorVerifier, positions: seq<nat>) {
    forall i :: 0 <= i < |positions| ==> positions[i] < |v.infos|
  }

  function InfosAt(v: ValidatorVerifier, positions: seq<nat>): seq<ValidatorConsensusInfo>
    requires InBounds(v, positions)
  {
    seq(|positions|, i requires 0 <= i < |positions| => v.infos[positions[i]])
  }

  function AddressesOf(infos: seq<ValidatorConsensusInfo>): (r: seq<Address>)
    ensures |r| == |infos| && forall i :: 0 <= i < |infos| ==> r[i] == infos[i].address
  {
    MapSeq(infos, (info: ValidatorConsensusInfo) => info.address)
  }

  function KeysOf(infos: seq<ValidatorConsensusInfo>): (r: seq<PublicKey>)
    ensures |r| == |infos| && forall i :: 0 <= i < |infos| ==> r[i] == infos[i].publicKey
  {
    MapSeq(infos, (info: ValidatorConsensusInfo) => info.publicKey)
  }

  ghost function VerifyMultiSpec<M>(v: ValidatorVerifier, scheme: Scheme<M>, message: M, multi: AggregateSignature)
    : Result<(), VerifyError>
  {
    var _ :- CheckNumOfVoters(AsU16(|v.infos|), multi.bitmask);
    var positions := Ascending(multi.bitmask.ones);
    if !InBounds(v, positions) then Failure(UnknownAuthor)
    else VerifySigners(v, scheme, message, InfosAt(v, positions), multi.sig)
  }

  /** The quorum check and the one signature check, once the signers are known. */
  function VerifySigners<M>(
    v: ValidatorVerifier, scheme: Scheme<M>, message: M, signers: seq<ValidatorConsensusInfo>, sig: Option<Signature>)
    : Result<(), VerifyError>
  {
    var _ :- CheckVotingPower(v, AddressesOf(signers), true);
    match sig
    case None => Failure(EmptySignature)
    case Some(signature) =>
      match scheme.AggregateKeys(KeysOf(signers))
      case None => Failure(FailedToAggregatePubKey)
      case Some(key) => if scheme.valid(key, message, signature) then Success(()) else Failure(InvalidMultiSignature)
  }

  /** `verify_multi_signatures`. */
  method VerifyMultiSignatures<M>(v: ValidatorVerifier, scheme: Scheme<M>, message: M, multi: AggregateSignature)
    returns (r: Result<(), VerifyError>)
    ensures r == VerifyMultiSpec(v, scheme, message, multi)
  {
    var _ :- CheckNumOfVoters(AsU16(|v.infos|), multi.bitmask);
    var positions := AscendingOf(multi.bitmask.ones);
    var signers := CollectSigners(v, positions);
    if signers == None {
      return Failure(UnknownAuthor);
    }
    var (authors, keys) := signers.value;
    var sum :- SumVotingPower(v, authors);
    var _ :- CheckAggregatedVotingPower(v, sum, true);
    match multi.sig {
      case None => return Failure(EmptySignature);
      case Some(signature) =>
        match scheme.AggregateKeys(keys) {
          case None => return Failure(FailedToAggregatePubKey);
          case Some(key) =>
            return if scheme.valid(key, message, signature) then Success(()) else Failure(InvalidMultiSignature);
        }
    }
  }

  /** The loop of `verify_multi_signatures`: authors and keys at the set positions. */
  method CollectSigners(v: ValidatorVerifier, positions: seq<nat>) returns (r: Option<(seq<Address>, seq<PublicKey>)>)
    ensures r == if InBounds(v, positions)
                 then Some((AddressesOf(InfosAt(v, positions)), KeysOf(InfosAt(v, positions))))
                 else None
  {
    var authors, keys := [], [];
    for k := 0 to |positions|
      invariant |authors| == |keys| == k
      invariant forall i :: 0 <= i < k ==>
                  && positions[i] < |v.infos|
                  && authors[i] == v.infos[positions[i]].address
                  && keys[i] == v.infos[positions[i]].publicKey
    {
      if positions[k] >= |v.infos| {
        return None;
      }
      authors := authors + [v.infos[positions[k]].address];
      keys := keys + [v.infos[positions[k]].publicKey];
    }
    assert authors == AddressesOf(InfosAt(v, positions)) && keys == KeysOf(InfosAt(v, positions));
    return Some((authors, keys));
  }

  /** The addresses at the positions that are somebody's. */
  function AddressesAt(infos: seq<ValidatorConsensusInfo>, positions: seq<nat>): seq<Address> {
    if positions == [] then [] else
      var last := positions[|positions| - 1];
      AddressesAt(infos, positions[..|positions| - 1]) + if last < |infos| then [infos[last].address] else []
  }

  /** `aggregate_signature_authors`: out-of-range positions are passed over. */
  method AggregateSignatureAuthors(v: ValidatorVerifier, multi: AggregateSignature) returns (authors: seq<Address>)
    ensures authors == AddressesAt(v.infos, Ascending(multi.bitmask.ones))
  {
    var positions := AscendingOf(multi.bitmask.ones);
    authors := [];
    for k := 0 to |positions|
      invariant authors == AddressesAt(v.infos, positions[..k])
    {
      assert positions[..k + 1][..k] == positions[..k];
      if positions[k] < |v.infos| {
        authors := authors + [v.infos[positions[k]].address];
      }
    }
    assert positions[..|positions|] == positions;
  }

  // ---------- Building a multi-signature ----------

  type Vote = (Address, Signature)

  function Voters(votes: seq<Vote>): (r: seq<Address>)
    ensures |r| == |votes| && forall i :: 0 <= i < |votes| ==> r[i] == votes[i].0
  {
    MapSeq(votes, (vote: Vote) => vote.0)
  }

  function VoteSignatures(votes: seq<Vote>): (r: seq<Signature>)
    ensures |r| == |votes| && forall i :: 0 <= i < |votes| ==> r[i] == votes[i].1
  {
    MapSeq(votes, (vote: Vote) => vote.1)
  }

  /** The positions of a list of known authors. */
  function Positions(v: ValidatorVerifier, authors: seq<Address>): seq<nat>
    requires AllKnown(v, authors)
  {
    seq(|authors|, i requires 0 <= i < |authors| => v.AddressIndex()[authors[i]])
  }

  /** Setting each position in turn on a fresh mask. */
  function MaskFor(v: ValidatorVerifier, authors: seq<Address>): BitVec
    requires AllKnown(v, authors)
  {
    if authors == [] then BitVec.WithNumBits(AsU16(|v.infos|)) else
      var last := |authors| - 1;
      MaskFor(v, authors[..last]).Set(AsU16(v.AddressIndex()[authors[last]]))
  }

  function AggregateSpec<M>(v: ValidatorVerifier, scheme: Scheme<M>, votes: seq<Vote>)
    : Result<AggregateSignature, VerifyError>
  {
    if !AllKnown(v, Voters(votes)) then Failure(UnknownAuthor)
    else match scheme.AggregateSignatures(VoteSignatures(votes))
      case None => Failure(FailedToAggregateSignature)
      case Some(signature) => Success(AggregateSignature(MaskFor(v, Voters(votes)), Some(signature)))
  }

  /** `aggregate_signatures`. */
  method AggregateSignatures<M>(v: ValidatorVerifier, scheme: Scheme<M>, votes: seq<Vote>)
    returns (r: Result<AggregateSignature, VerifyError>)
    ensures r == AggregateSpec(v, scheme, votes)
  {
    var sigs := [];
    var mask := BitVec.WithNumBits(AsU16(|v.infos|));
    var index := v.AddressIndex();
    ghost var voters := Voters(votes);
    for k := 0 to |votes|
      invariant AllKnown(v, voters[..k]) && mask == MaskFor(v, voters[..k])
      invariant |sigs| == k && forall i :: 0 <= i < k ==> sigs[i] == votes[i].1
    {
      if votes[k].0 !in index {
        assert voters[k] !in index;
        return Failure(UnknownAuthor);
      }
      MaskForStep(v, voters, k);
      mask := mask.Set(AsU16(index[votes[k].0]));
      sigs := sigs + [votes[k].1];
    }
    assert voters[..|votes|] == voters && sigs == VoteSignatures(votes);
    match scheme.AggregateSignatures(sigs) {
      case None => return Failure(FailedToAggregateSignature);
      case Some(signature) => return Success(AggregateSignature(mask, Some(signature)));
    }
  }

  lemma MaskForStep(v: ValidatorVerifier, authors: seq<Address>, k: nat)
    requires k < |authors| && AllKnown(v, authors[..k]) && authors[k] in v.AddressIndex()
    ensures AllKnown(v, authors[..k + 1])
    ensures MaskFor(v, authors[..k + 1]) == MaskFor(v, authors[..k]).Set(AsU16(v.AddressIndex()[authors[k]]))
  {
    assert authors[..k + 1] == authors[..k] + [authors[k]];
    assert authors[..k + 1][..k] == authors[..k];
  }
}
