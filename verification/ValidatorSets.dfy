/** Turning the on-chain validator set into a verifier: `From<&ValidatorSet>`. */
module ValidatorSets {
  import opened Prelude
  import opened Bls
  import opened Validators

  datatype ValidatorInfo =
    ValidatorInfo(address: Address, publicKey: PublicKey, votingPower: nat, validatorIndex: nat)
  {
    function ToConsensusInfo(): ValidatorConsensusInfo {
      ValidatorConsensusInfo(address, publicKey, votingPower)
    }
  }

  datatype ValidatorSet = ValidatorSet(active: seq<ValidatorInfo>, pendingInactive: seq<ValidatorInfo>) {
    function Payload(): seq<ValidatorInfo> {
      active + pendingInactive
    }
  }

  /** Collecting into a map keyed by on-chain index: a later entry replaces an earlier one. */
  function ByIndex(payload: seq<ValidatorInfo>): (m: map<nat, ValidatorConsensusInfo>)
    ensures m.Keys == Elements(Indexes(payload))
  {
    if payload == [] then map[] else
      var last := |payload| - 1;
      assert payload == payload[..last] + [payload[last]];
      assert Indexes(payload) == Indexes(payload[..last]) + [payload[last].validatorIndex];
      ElementsAppend(Indexes(payload[..last]), payload[last].validatorIndex);
      ByIndex(payload[..last])[payload[last].validatorIndex := payload[last].ToConsensusInfo()]
  }

  function Indexes(payload: seq<ValidatorInfo>): (r: seq<nat>)
    ensures |r| == |payload| && forall k :: 0 <= k < |payload| ==> r[k] == payload[k].validatorIndex
  {
    MapSeq(payload, (info: ValidatorInfo) => info.validatorIndex)
  }

  function Infos(payload: seq<ValidatorInfo>): seq<ValidatorConsensusInfo> {
    MapSeq(payload, (info: ValidatorInfo) => info.ToConsensusInfo())
  }

  function Owners(payload: seq<ValidatorInfo>): seq<Address> {
    MapSeq(payload, (info: ValidatorInfo) => info.address)
  }

  /** The map's values in key order. */
  ghost function Sorted(payload: seq<ValidatorInfo>): seq<ValidatorConsensusInfo> {
    var m := ByIndex(payload);
    var keys := Ascending(m.Keys);
    assert forall i :: 0 <= i < |keys| ==> keys[i] in m.Keys;
    seq(|keys|, i requires 0 <= i < |keys| && keys[i] in m => m[keys[i]])
  }

  method SortByIndex(payload: seq<ValidatorInfo>) returns (infos: seq<ValidatorConsensusInfo>)
    ensures infos == Sorted(payload)
  {
    var m := ByIndex(payload);
    var keys := AscendingOf(m.Keys);
    assert forall i :: 0 <= i < |keys| ==> keys[i] in m.Keys;
    infos := seq(|keys|, i requires 0 <= i < |keys| && keys[i] in m => m[keys[i]]);
  }

  /** The assertion checked for one entry, including the bounds check of the indexing. */
  predicate Agrees(infos: seq<ValidatorConsensusInfo>, info: ValidatorInfo) {
    info.validatorIndex < |infos| && infos[info.validatorIndex].address == info.address
  }

  ghost predicate AllAgree(payload: seq<ValidatorInfo>) {
    forall k :: 0 <= k < |payload| ==> Agrees(Sorted(payload), payload[k])
  }

  /** The conversion; `None` where the program panics. */
  method FromValidatorSet(validatorSet: ValidatorSet) returns (r: Option<ValidatorVerifier>)
    ensures r.Some? <==> AllAgree(validatorSet.Payload())
    ensures r.Some? ==> r.value == NewVerifier(Sorted(validatorSet.Payload()))
  {
    var payload := validatorSet.Payload();
    var infos := SortByIndex(payload);
    var agreed := CheckAll(infos, payload);
    return if agreed then Some(NewVerifier(infos)) else None;
  }

  method CheckAll(infos: seq<ValidatorConsensusInfo>, payload: seq<ValidatorInfo>) returns (agreed: bool)
    ensures agreed <==> forall k :: 0 <= k < |payload| ==> Agrees(infos, payload[k])
  {
    for k := 0 to |payload|
      invariant forall i :: 0 <= i < k ==> Agrees(infos, payload[i])
    {
      if !Agrees(infos, payload[k]) {
        return false;
      }
    }
    return true;
  }

  /** Of entries with one index the last is kept. */
  lemma {:induction false} ByIndexKeepsEach(payload: seq<ValidatorInfo>, k: nat)
    requires k < |payload| && forall j :: k < j < |payload| ==> payload[j].validatorIndex != payload[k].validatorIndex
    ensures payload[k].validatorIndex in ByIndex(payload)
    ensures ByIndex(payload)[payload[k].validatorIndex] == payload[k].ToConsensusInfo()
  {
    var last := |payload| - 1;
    if k < last {
      ByIndexKeepsEach(payload[..last], k);
    }
  }

  /** Pending-inactive validators come after the active ones, so they win if an index is given twice. */
  lemma PendingComeLast(validatorSet: ValidatorSet, k: nat)
    requires k < |validatorSet.pendingInactive|
    requires forall j :: k < j < |validatorSet.pendingInactive| ==>
               validatorSet.pendingInactive[j].validatorIndex != validatorSet.pendingInactive[k].validatorIndex
    ensures var info := validatorSet.pendingInactive[k];
            && info.validatorIndex in ByIndex(validatorSet.Payload())
            && ByIndex(validatorSet.Payload())[info.validatorIndex] == info.ToConsensusInfo()
  {
    var payload, n := validatorSet.Payload(), |validatorSet.active|;
    assert forall j :: n <= j < |payload| ==> payload[j] == validatorSet.pendingInactive[j - n];
    ByIndexKeepsEach(payload, n + k);
  }

  /** A permutation of 0..n-1 as on-chain indexes. */
  ghost predicate IndexesArePositions(payload: seq<ValidatorInfo>) {
    Distinct(Indexes(payload)) && forall k :: 0 <= k < |payload| ==> payload[k].validatorIndex < |payload|
  }

  lemma KeyCount(payload: seq<ValidatorInfo>)
    requires Distinct(Indexes(payload))
    ensures |ByIndex(payload).Keys| == |payload|
  {
    DistinctLength(Indexes(payload));
  }

  lemma IndexesFillUp(indexes: seq<nat>)
    requires Distinct(indexes) && forall k :: 0 <= k < |indexes| ==> indexes[k] < |indexes|
    ensures Ascending(Elements(indexes)) == Upto(|indexes|)
    ensures forall i: nat :: i < |indexes| ==> i in Elements(indexes)
  {
    var n, keys := |indexes|, Elements(indexes);
    DistinctLength(indexes);
    BoundedSet(keys, n);
    UptoElements(n);
    AscendingUnique(Upto(n), keys);
  }

  lemma KeysAreUpto(payload: seq<ValidatorInfo>)
    requires IndexesArePositions(payload)
    ensures forall i: nat :: i < |payload| ==> i in Elements(Indexes(payload))
    ensures Ascending(ByIndex(payload).Keys) == Upto(|payload|)
  {
    IndexesFillUp(Indexes(payload));
  }

  lemma SortedAtIndex(payload: seq<ValidatorInfo>)
    requires IndexesArePositions(payload)
    ensures Placed(payload, Sorted(payload))
  {
    KeysAreUpto(payload);
    forall k | 0 <= k < |payload|
      ensures Sorted(payload)[payload[k].validatorIndex] == payload[k].ToConsensusInfo()
    {
      assert forall j :: k < j < |payload| ==> Indexes(payload)[j] != Indexes(payload)[k];
      ByIndexKeepsEach(payload, k);
    }
  }

  /** Active and pending-inactive validators alike end up at their on-chain index, with their
      address, key and voting power, and there is nobody else. */
  lemma EverybodyIsConverted(validatorSet: ValidatorSet, info: ValidatorInfo)
    requires IndexesArePositions(validatorSet.Payload())
    requires info in validatorSet.active || info in validatorSet.pendingInactive
    ensures var infos := NewVerifier(Sorted(validatorSet.Payload())).infos;
            && |infos| == |validatorSet.active| + |validatorSet.pendingInactive|
            && info.validatorIndex < |infos|
            && infos[info.validatorIndex] == ValidatorConsensusInfo(info.address, info.publicKey, info.votingPower)
  {
    var payload := validatorSet.Payload();
    SortedAtIndex(payload);
    assert info in payload;
    var k :| 0 <= k < |payload| && payload[k] == info;
  }

  /** For distinct addresses the conversion goes through exactly when the on-chain indexes
      are 0..n-1, each once. Then no validator is lost, and position i of the verifier, and
      so bit i of a signer mask, is the validator whose on-chain index is i. */
  lemma ConversionExactly(payload: seq<ValidatorInfo>)
    requires Distinct(Owners(payload))
    ensures AllAgree(payload) <==> IndexesArePositions(payload)
    ensures IndexesArePositions(payload) ==> Placed(payload, Sorted(payload))
  {
    if IndexesArePositions(payload) {
      SortedAtIndex(payload);
    }
    if AllAgree(payload) {
      var indexes := Indexes(payload);
      forall j, k | 0 <= j < k < |payload|
        ensures indexes[j] != indexes[k]
      {
        assert Agrees(Sorted(payload), payload[j]) && Agrees(Sorted(payload), payload[k]);
        assert Owners(payload)[j] != Owners(payload)[k];
      }
      KeyCount(payload);
      forall k | 0 <= k < |payload|
        ensures payload[k].validatorIndex < |payload|
      {
        assert Agrees(Sorted(payload), payload[k]);
      }
    }
  }

  lemma EntryAt(payload: seq<ValidatorInfo>, i: nat) returns (k: nat)
    requires IndexesArePositions(payload) && i < |payload|
    ensures k < |payload| && payload[k].validatorIndex == i
  {
    KeysAreUpto(payload);
    assert i in Elements(Indexes(payload));
    k :| 0 <= k < |payload| && Indexes(payload)[k] == i;
  }

  /** A converted set with distinct addresses is well formed. */
  lemma ConvertedIsWellFormed(payload: seq<ValidatorInfo>)
    requires Distinct(Owners(payload)) && IndexesArePositions(payload) && |payload| < U16_LIMIT
    ensures WellFormed(NewVerifier(Sorted(payload)))
    ensures multiset(NewVerifier(Sorted(payload)).infos) == multiset(Infos(payload))
  {
    SortedAtIndex(payload);
    PlacedAddressesDistinct(payload, Sorted(payload));
    SortedIsRearranged(payload);
  }

  /** `infos` holds each entry at its on-chain index. */
  ghost predicate Placed(payload: seq<ValidatorInfo>, infos: seq<ValidatorConsensusInfo>) {
    && |infos| == |payload|
    && forall k :: 0 <= k < |payload| ==>
         payload[k].validatorIndex < |infos| && infos[payload[k].validatorIndex] == payload[k].ToConsensusInfo()
  }

  lemma PlacedAddressesDistinct(payload: seq<ValidatorInfo>, infos: seq<ValidatorConsensusInfo>)
    requires Distinct(Owners(payload)) && IndexesArePositions(payload) && Placed(payload, infos)
    ensures Distinct(AddressesOf(infos))
  {
    var owners := Owners(payload);
    forall i, j | 0 <= i < j < |infos|
      ensures infos[i].address != infos[j].address
    {
      var k := EntryAt(payload, i);
      var l := EntryAt(payload, j);
      assert owners[k] != owners[l];
    }
  }

  lemma SortedIsRearranged(payload: seq<ValidatorInfo>)
    requires IndexesArePositions(payload)
    ensures multiset(Sorted(payload)) == multiset(Infos(payload))
  {
    SortedAtIndex(payload);
    var n, infos := |payload|, Sorted(payload);
    UptoRearranged(payload);
    var at := (i: nat) => if i < n then infos[i] else ValidatorConsensusInfo(0, PublicKey(0), 0);
    MapPermutation(Upto(n), Indexes(payload), at);
    assert MapSeq(Upto(n), at) == infos;
    forall k | 0 <= k < n
      ensures at(Indexes(payload)[k]) == Infos(payload)[k]
    {
      assert infos[payload[k].validatorIndex] == payload[k].ToConsensusInfo();
    }
    assert MapSeq(Indexes(payload), at) == Infos(payload);
  }

  lemma UptoRearranged(payload: seq<ValidatorInfo>)
    requires IndexesArePositions(payload)
    ensures multiset(Upto(|payload|)) == multiset(Indexes(payload))
  {
    KeysAreUpto(payload);
    UptoElements(|payload|);
    assert forall k :: 0 <= k < |payload| ==> Indexes(payload)[k] < |payload|;
    DistinctPermutation(Upto(|payload|), Indexes(payload));
  }
}
