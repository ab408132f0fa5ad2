/** The signature scheme, seen through the three operations the program calls.
    Aggregation adds group elements, so its result depends on which parts are
    aggregated and not on their order. */
module Bls {
  import opened Prelude

  datatype PublicKey = PublicKey(point: nat)
  datatype Signature = Signature(point: nat)

  datatype Scheme<!M> = Scheme(
    valid: (PublicKey, M, Signature) -> bool,
    sumKeys: multiset<PublicKey> -> PublicKey,
    sumSignatures: multiset<Signature> -> Signature)
  {
    /** Aggregating nothing is an error. */
    function AggregateKeys(keys: seq<PublicKey>): Option<PublicKey> {
      if keys == [] then None else Some(sumKeys(multiset(keys)))
    }

    function AggregateSignatures(sigs: seq<Signature>): Option<Signature> {
      if sigs == [] then None else Some(sumSignatures(multiset(sigs)))
    }

    /** Every part is a valid signature on `message`. */
    ghost predicate AllValid(message: M, keys: seq<PublicKey>, sigs: seq<Signature>) {
      && |keys| == |sigs|
      && forall i :: 0 <= i < |keys| ==> valid(keys[i], message, sigs[i])
    }
  }

  /** Valid parts have a valid aggregate. The converse is not assumed: colluding
      signers can produce a valid aggregate out of invalid parts. */
  ghost predicate Complete<M(!new)>(scheme: Scheme<M>) {
    forall message: M, keys: seq<PublicKey>, sigs: seq<Signature> ::
      keys != [] && scheme.AllValid(message, keys, sigs) ==>
        scheme.valid(scheme.sumKeys(multiset(keys)), message, scheme.sumSignatures(multiset(sigs)))
  }
}
