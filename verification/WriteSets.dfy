/** Write sets and how two of them are squashed into one: `write_set.rs`. */
module WriteSets {
  import opened Prelude

  /** State keys, numbered in the order in which a write set is iterated. */
  type StateKey = nat

  /** Deposit and creation time, or nothing for legacy values. */
  datatype Metadata = Legacy | Metadata(slotDeposit: nat, bytesDeposit: nat, creationTimeUsecs: nat)

  datatype StateValue = StateValue(bytes: seq<nat>, metadata: Metadata)

  datatype WriteOp =
    | Creation(value: StateValue)
    | Modification(value: StateValue)
    | Deletion(deleted: Metadata)
  {
    function StateValueRef(): Option<StateValue> {
      match this
      case Creation(v) => Some(v)
      case Modification(v) => Some(v)
      case Deletion(_) => None
    }

    function GetMetadata(): Metadata {
      match this
      case Creation(v) => v.metadata
      case Modification(v) => v.metadata
      case Deletion(m) => m
    }
  }

  datatype SquashError = CannotSquash | IncompatibleMetadata

  function EnsureMetadataCompatible(old': Metadata, new': Metadata): Result<(), SquashError> {
    if old' == new' then Success(()) else Failure(IncompatibleMetadata)
  }

  /** `WriteOp::squash`: the merged op, or `None` when nothing is left of the two. */
  function SquashOp(op: WriteOp, other: WriteOp): Result<Option<WriteOp>, SquashError> {
    match (op, other)
    case (Modification(_), Creation(_)) => Failure(CannotSquash)
    case (Creation(_), Creation(_)) => Failure(CannotSquash)
    case (Deletion(_), Modification(_)) => Failure(CannotSquash)
    case (Deletion(_), Deletion(_)) => Failure(CannotSquash)
    case (Creation(c), Modification(m)) =>
      var _ :- EnsureMetadataCompatible(c.metadata, m.metadata);
      Success(Some(Creation(m)))
    case (Modification(c), Modification(m)) =>
      var _ :- EnsureMetadataCompatible(c.metadata, m.metadata);
      Success(Some(Modification(m)))
    case (Modification(m), Deletion(d)) =>
      var _ :- EnsureMetadataCompatible(m.metadata, d);
      Success(Some(Deletion(d)))
    case (Deletion(d), Creation(c)) =>
      Success(Some(Modification(StateValue(c.bytes, d))))
    case (Creation(c), Deletion(d)) =>
      var _ :- EnsureMetadataCompatible(c.metadata, d);
      Success(None)
  }

  type WriteSet = map<StateKey, WriteOp>

  // ---------- Squashing key by key ----------

  /** What the first set does to a key, as the left operand of a squash. */
  function SquashAt(first: WriteSet, second: WriteSet, key: StateKey): Result<Option<WriteOp>, SquashError> {
    if key !in second then Success(if key in first then Some(first[key]) else None)
    else if key !in first then Success(Some(second[key]))
    else SquashOp(first[key], second[key])
  }

  predicate Squashable(first: WriteSet, second: WriteSet) {
    forall key :: key in first && key in second ==> SquashAt(first, second, key).Success?
  }

  function SquashedKeys(first: WriteSet, second: WriteSet): set<StateKey> {
    set key | key in first.Keys + second.Keys && SquashAt(first, second, key).Success? && SquashAt(first, second, key).value.Some?
  }

  function Squashed(first: WriteSet, second: WriteSet): WriteSet
    requires Squashable(first, second)
  {
    map key | key in SquashedKeys(first, second) :: SquashAt(first, second, key).value.value
  }

  /** `writeSet` is `first` with the entries of `second` at the keys `done` folded in. */
  ghost predicate Folded(first: WriteSet, second: WriteSet, done: set<StateKey>, writeSet: WriteSet) {
    forall key ::
      && (key in done ==> SquashAt(first, second, key) == Success(At(writeSet, key)))
      && (key !in done ==> At(writeSet, key) == At(first, key))
  }

  /** The least common key at which the squash fails, and why. */
  ghost predicate FirstFailure(first: WriteSet, second: WriteSet, key: StateKey, error: SquashError) {
    && key in first && key in second && SquashOp(first[key], second[key]) == Failure(error)
    && forall k :: k in first && k in second && k < key ==> SquashOp(first[k], second[k]).Success?
  }

  /** The loop body of the squash: one entry of the second set. */
  method FoldEntry(writeSet: WriteSet, key: StateKey, op: WriteOp) returns (r: Result<WriteSet, SquashError>)
    ensures r.Failure? <==> key in writeSet && SquashOp(writeSet[key], op).Failure?
    ensures r.Failure? ==> SquashOp(writeSet[key], op) == Failure(r.error)
    ensures r.Success? ==> At(r.value, key) == if key in writeSet then SquashOp(writeSet[key], op).value else Some(op)
    ensures r.Success? ==> forall k :: k != key ==> At(r.value, k) == At(writeSet, k)
  {
    if key !in writeSet {
      return Success(writeSet[key := op]);
    }
    var squashed :- SquashOp(writeSet[key], op);
    if squashed == None {
      return Success(map k | k in writeSet && k != key :: writeSet[k]);
    }
    return Success(writeSet[key := squashed.value]);
  }

  /** `WriteSetMut::squash`, folding the second set into the first entry by entry, in key order. */
  method Squash(first: WriteSet, second: WriteSet) returns (r: Result<WriteSet, SquashError>)
    ensures r.Success? <==> Squashable(first, second)
    ensures r.Success? ==> r.value == Squashed(first, second)
    ensures r.Failure? ==> exists key :: FirstFailure(first, second, key, r.error)
  {
    var writeSet := first;
    var keys := AscendingOf(second.Keys);
    ghost var done := {};
    for i := 0 to |keys|
      invariant done == Elements(keys[..i])
      invariant Folded(first, second, done, writeSet)
    {
      var key := keys[i];
      assert key !in done && key in second.Keys;
      ghost var before := At(writeSet, key);
      assert before == At(first, key);
      var folded := FoldEntry(writeSet, key, second[key]);
      if folded.Failure? {
        FailsFirst(first, second, keys, i, folded.error);
        return Failure(folded.error);
      }
      writeSet := folded.value;
      assert SquashAt(first, second, key) == Success(At(writeSet, key));
      assert keys[..i + 1] == keys[..i] + [key];
      ElementsAppend(keys[..i], key);
      done := done + {key};
    }
    assert keys[..|keys|] == keys;
    assert done == second.Keys;
    FoldedIsSquashed(first, second, writeSet);
    return Success(writeSet);
  }

  lemma FailsFirst(first: WriteSet, second: WriteSet, keys: seq<StateKey>, i: nat, error: SquashError)
    requires Enumerates(keys, second.Keys) && i < |keys|
    requires keys[i] in first && SquashOp(first[keys[i]], second[keys[i]]) == Failure(error)
    requires forall key :: key in Elements(keys[..i]) ==> SquashAt(first, second, key).Success?
    ensures FirstFailure(first, second, keys[i], error) && !Squashable(first, second)
  {
    assert SquashAt(first, second, keys[i]).Failure?;
    forall k | k in first && k in second && k < keys[i]
      ensures SquashOp(first[k], second[k]).Success?
    {
      assert k in keys;
      var j :| 0 <= j < |keys| && keys[j] == k;
      assert j < i;
      assert keys[..i][j] in Elements(keys[..i]);
    }
  }

  lemma FoldedIsSquashed(first: WriteSet, second: WriteSet, writeSet: WriteSet)
    requires Folded(first, second, second.Keys, writeSet)
    ensures Squashable(first, second) && writeSet == Squashed(first, second)
  {
    forall key
      ensures At(writeSet, key) == At(Squashed(first, second), key)
    {
      SquashedAt(first, second, key);
    }
    SameEverywhere(writeSet, Squashed(first, second));
  }

  function At(ws: WriteSet, key: StateKey): Option<WriteOp> {
    if key in ws then Some(ws[key]) else None
  }

  lemma SquashedAt(a: WriteSet, b: WriteSet, key: StateKey)
    requires Squashable(a, b)
    ensures At(Squashed(a, b), key) == SquashAt(a, b, key).value
  {
  }

  lemma SameEverywhere(a: WriteSet, b: WriteSet)
    requires forall key :: At(a, key) == At(b, key)
    ensures a == b
  {
    assert forall key :: key in a <==> At(a, key).Some?;
    assert forall key :: key in b <==> At(b, key).Some?;
  }

  // ---------- What a write set does to a state ----------

  type State = map<StateKey, StateValue>

  /** An op fits a state: create what is absent, modify or delete what is present. */
  predicate Fits(present: bool, op: WriteOp) {
    op.Creation? <==> !present
  }

  ghost predicate Runnable(s: State, ws: WriteSet) {
    forall key :: key in ws ==> Fits(key in s, ws[key])
  }

  /** The value at a key after the write set. */
  function ValueAfter(s: State, ws: WriteSet, key: StateKey): Option<StateValue> {
    if key in ws then ws[key].StateValueRef() else if key in s then Some(s[key]) else None
  }

  function Apply(s: State, ws: WriteSet): State {
    map key | key in s.Keys + ws.Keys && ValueAfter(s, ws, key).Some? :: ValueAfter(s, ws, key).value
  }

  lemma ApplyAt(s: State, ws: WriteSet, key: StateKey)
    ensures key in Apply(s, ws) <==> ValueAfter(s, ws, key).Some?
    ensures key in Apply(s, ws) ==> Apply(s, ws)[key] == ValueAfter(s, ws, key).value
  {
  }

  function BytesAt(s: State, key: StateKey): Option<seq<nat>> {
    if key in s then Some(s[key].bytes) else None
  }

  /** The two states hold the same bytes at every key. Metadata may differ. */
  ghost predicate SameBytes(s: State, t: State) {
    forall key :: BytesAt(s, key) == BytesAt(t, key)
  }

  // ---------- A squash preserves the effect ----------

  /** One key: a merged op fits where the pair ran, and leaves the same bytes. */
  ghost predicate MergesWell(present: bool, op: WriteOp, other: WriteOp, merged: Option<WriteOp>) {
    && (merged.Some? ==> Fits(present, merged.value))
    && (merged.Some? ==> merged.value.GetMetadata() == op.GetMetadata())
    && (merged == None ==> !present && other.Deletion?)
    && (merged.Some? ==> (merged.value.StateValueRef() == None <==> other.StateValueRef() == None))
    && (merged.Some? && merged.value.StateValueRef().Some? ==>
          merged.value.StateValueRef().value.bytes == other.StateValueRef().value.bytes)
  }

  /** Whether two ops can be squashed at all is a matter of their kinds: the second has to fit
      what the first leaves. */
  lemma CannotSquashExactly(op: WriteOp, other: WriteOp)
    ensures SquashOp(op, other) == Failure(CannotSquash) <==> !Fits(op.StateValueRef().Some?, other)
  {
  }

  lemma SquashOpMergesWell(present: bool, op: WriteOp, other: WriteOp)
    requires Fits(present, op) && Fits(op.StateValueRef().Some?, other)
    ensures SquashOp(op, other).Success? ==> MergesWell(present, op, other, SquashOp(op, other).value)
    ensures SquashOp(op, other).Failure? <==>
            op.GetMetadata() != other.GetMetadata() && !(op.Deletion? && other.Creation?)
    ensures SquashOp(op, other).Failure? ==> SquashOp(op, other).error == IncompatibleMetadata
  {
  }

  lemma SquashPreservesAt(s: State, first: WriteSet, second: WriteSet, key: StateKey)
    requires Runnable(s, first) && Runnable(Apply(s, first), second) && Squashable(first, second)
    ensures var squashed := Squashed(first, second);
            && (key in squashed ==> Fits(key in s, squashed[key]))
            && (key in squashed && key in first ==> squashed[key].GetMetadata() == first[key].GetMetadata())
            && BytesAt(Apply(s, squashed), key) == BytesAt(Apply(Apply(s, first), second), key)
  {
    var squashed := Squashed(first, second);
    ApplyAt(s, first, key);
    ApplyAt(Apply(s, first), second, key);
    ApplyAt(s, squashed, key);
    if key in first && key in second {
      SquashOpMergesWell(key in s, first[key], second[key]);
    }
  }

  /** If two write sets run one after the other and squash, the squashed set runs from the same
      state and leaves the same bytes at every key; a merged entry keeps the first op's
      metadata. */
  lemma SquashPreservesEffect(s: State, first: WriteSet, second: WriteSet)
    requires Runnable(s, first) && Runnable(Apply(s, first), second) && Squashable(first, second)
    ensures Runnable(s, Squashed(first, second))
    ensures SameBytes(Apply(s, Squashed(first, second)), Apply(Apply(s, first), second))
    ensures forall key :: key in Squashed(first, second) && key in first ==>
              Squashed(first, second)[key].GetMetadata() == first[key].GetMetadata()
  {
    forall key
      ensures var squashed := Squashed(first, second);
              && (key in squashed ==> Fits(key in s, squashed[key]))
              && (key in squashed && key in first ==> squashed[key].GetMetadata() == first[key].GetMetadata())
              && BytesAt(Apply(s, squashed), key) == BytesAt(Apply(Apply(s, first), second), key)
    {
      SquashPreservesAt(s, first, second, key);
    }
  }

  /** On a runnable pair the only obstacle is a metadata mismatch, and deleting then
      recreating is exempt from it. */
  lemma RunnablePairSquashesExactly(s: State, first: WriteSet, second: WriteSet)
    requires Runnable(s, first) && Runnable(Apply(s, first), second)
    ensures Squashable(first, second) <==>
            forall key :: key in first && key in second && !(first[key].Deletion? && second[key].Creation?) ==>
              first[key].GetMetadata() == second[key].GetMetadata()
  {
    forall key | key in first && key in second
      ensures SquashAt(first, second, key).Failure? <==>
              first[key].GetMetadata() != second[key].GetMetadata() && !(first[key].Deletion? && second[key].Creation?)
    {
      ApplyAt(s, first, key);
      SquashOpMergesWell(key in s, first[key], second[key]);
    }
  }

  // ---------- Every bracketing ----------

  /** A way of squashing a sequence of write sets together. */
  datatype Bracketing = Leaf(writeSet: WriteSet) | Node(left: Bracketing, right: Bracketing) {
    function Leaves(): seq<WriteSet> {
      match this
      case Leaf(ws) => [ws]
      case Node(l, r) => l.Leaves() + r.Leaves()
    }

    /** `None` if some squash on the way fails. */
    function Evaluate(): Option<WriteSet> {
      match this
      case Leaf(ws) => Some(ws)
      case Node(l, r) =>
        match (l.Evaluate(), r.Evaluate())
        case (Some(a), Some(b)) => if Squashable(a, b) then Some(Squashed(a, b)) else None
        case _ => None
    }
  }

  function ApplyAll(s: State, sets: seq<WriteSet>): State
    decreases |sets|
  {
    if sets == [] then s else ApplyAll(Apply(s, sets[0]), sets[1..])
  }

  ghost predicate RunnableAll(s: State, sets: seq<WriteSet>)
    decreases |sets|
  {
    sets != [] ==> Runnable(s, sets[0]) && RunnableAll(Apply(s, sets[0]), sets[1..])
  }

  lemma {:induction false} RunAppend(s: State, a: seq<WriteSet>, b: seq<WriteSet>)
    ensures ApplyAll(s, a + b) == ApplyAll(ApplyAll(s, a), b)
    ensures RunnableAll(s, a + b) <==> RunnableAll(s, a) && RunnableAll(ApplyAll(s, a), b)
    decreases |a|
  {
    if a == [] {
      assert a + b == b;
    } else {
      assert (a + b)[0] == a[0] && (a + b)[1..] == a[1..] + b;
      RunAppend(Apply(s, a[0]), a[1..], b);
    }
  }

  /** A state only matters for what a write set does through which keys are present and
      through the bytes of the keys it does not touch. */
  lemma RunnableByPresence(s: State, t: State, ws: WriteSet)
    requires SameBytes(s, t) && Runnable(s, ws)
    ensures Runnable(t, ws) && SameBytes(Apply(s, ws), Apply(t, ws))
  {
    forall key
      ensures BytesAt(Apply(s, ws), key) == BytesAt(Apply(t, ws), key)
    {
      assert BytesAt(s, key) == BytesAt(t, key);
      ApplyAt(s, ws, key);
      ApplyAt(t, ws, key);
    }
    forall key | key in ws
      ensures Fits(key in t, ws[key])
    {
      assert BytesAt(s, key) == BytesAt(t, key);
    }
  }

  /** Any bracketing that evaluates at all has the effect of running the write sets in order. */
  lemma {:induction false} BracketingPreservesEffect(s: State, t: Bracketing)
    requires RunnableAll(s, t.Leaves()) && t.Evaluate().Some?
    ensures Runnable(s, t.Evaluate().value)
    ensures SameBytes(Apply(s, t.Evaluate().value), ApplyAll(s, t.Leaves()))
    decreases t
  {
    match t
    case Leaf(ws) =>
      assert t.Leaves()[0] == ws && t.Leaves()[1..] == [];
    case Node(l, r) =>
      var a, b := l.Evaluate().value, r.Evaluate().value;
      RunAppend(s, l.Leaves(), r.Leaves());
      BracketingPreservesEffect(s, l);
      var middle := ApplyAll(s, l.Leaves());
      BracketingPreservesEffect(middle, r);
      RunnableByPresence(middle, Apply(s, a), b);
      SquashPreservesEffect(s, a, b);
  }

  // ---------- Uniform metadata: one result for all bracketings ----------

  /** Every op on a key carries the metadata `meta` gives it. */
  ghost predicate Uniform(meta: StateKey -> Metadata, ws: WriteSet) {
    forall key :: key in ws ==> ws[key].GetMetadata() == meta(key)
  }

  ghost predicate UniformAll(meta: StateKey -> Metadata, sets: seq<WriteSet>) {
    forall i :: 0 <= i < |sets| ==> Uniform(meta, sets[i])
  }

  function Touched(sets: seq<WriteSet>): set<StateKey> {
    if sets == [] then {} else sets[0].Keys + Touched(sets[1..])
  }

  /** The net op on a touched key: decided by whether the key was there and what is there now. */
  function NetOp(before: Option<StateValue>, after: Option<StateValue>, meta: Metadata): Option<WriteOp> {
    match (before, after)
    case (None, None) => None
    case (None, Some(v)) => Some(Creation(v))
    case (Some(_), Some(v)) => Some(Modification(v))
    case (Some(_), None) => Some(Deletion(meta))
  }

  function Lookup(s: State, key: StateKey): Option<StateValue> {
    if key in s then Some(s[key]) else None
  }

  /** `ws` is the net effect of going from `s` to `t` by touching `keys`. */
  ghost predicate IsNet(s: State, t: State, keys: set<StateKey>, meta: StateKey -> Metadata, ws: WriteSet) {
    forall key ::
      At(ws, key) == if key in keys then NetOp(Lookup(s, key), Lookup(t, key), meta(key)) else None
  }

  /** The net effect is one write set. */
  lemma NetIsUnique(s: State, t: State, keys: set<StateKey>, meta: StateKey -> Metadata, a: WriteSet, b: WriteSet)
    requires IsNet(s, t, keys, meta, a) && IsNet(s, t, keys, meta, b)
    ensures a == b
  {
    forall key
      ensures At(a, key) == At(b, key)
    {
    }
    SameEverywhere(a, b);
  }

  lemma {:induction false} TouchedAppend(a: seq<WriteSet>, b: seq<WriteSet>)
    ensures Touched(a + b) == Touched(a) + Touched(b)
  {
    if a == [] {
      assert a + b == b;
    } else {
      assert (a + b)[0] == a[0] && (a + b)[1..] == a[1..] + b;
      TouchedAppend(a[1..], b);
    }
  }

  lemma {:induction false} UntouchedStays(s: State, sets: seq<WriteSet>, key: StateKey)
    requires key !in Touched(sets)
    ensures Lookup(ApplyAll(s, sets), key) == Lookup(s, key)
    decreases |sets|
  {
    if sets != [] {
      UntouchedStays(Apply(s, sets[0]), sets[1..], key);
      ApplyAt(s, sets[0], key);
    }
  }

  /** A touched key that is present afterwards carries the uniform metadata. */
  lemma {:induction false} TouchedMetadata(meta: StateKey -> Metadata, s: State, sets: seq<WriteSet>, key: StateKey)
    requires UniformAll(meta, sets) && key in Touched(sets)
    ensures key in ApplyAll(s, sets) ==> ApplyAll(s, sets)[key].metadata == meta(key)
    decreases |sets|
  {
    if key in Touched(sets[1..]) {
      assert UniformAll(meta, sets[1..]) by {
        assert forall i :: 0 <= i < |sets[1..]| ==> sets[1..][i] == sets[i + 1];
      }
      TouchedMetadata(meta, Apply(s, sets[0]), sets[1..], key);
    } else {
      UntouchedStays(Apply(s, sets[0]), sets[1..], key);
      ApplyAt(s, sets[0], key);
      assert Uniform(meta, sets[0]);
    }
  }

  /** Squashing at one key composes net ops, whatever was there before, in between and after. */
  lemma NetOpsCompose(before: Option<StateValue>, between: Option<StateValue>, after: Option<StateValue>, meta: Metadata)
    requires between.Some? ==> between.value.metadata == meta
    requires after.Some? ==> after.value.metadata == meta
    ensures var a, b := NetOp(before, between, meta), NetOp(between, after, meta);
            && (a.Some? && b.Some? ==>
                  SquashOp(a.value, b.value) == Success(NetOp(before, after, meta)))
            && (b == None ==> a == NetOp(before, after, meta) || (before == None && after == None))
            && (a == None && b.Some? ==> b == NetOp(before, after, meta))
  {
  }

  lemma NetSquashes(
    s: State, s1: State, s2: State, left: set<StateKey>, right: set<StateKey>, meta: StateKey -> Metadata, a: WriteSet, b: WriteSet)
    requires IsNet(s, s1, left, meta, a) && IsNet(s1, s2, right, meta, b)
    requires forall key :: key in left && key in s1 ==> s1[key].metadata == meta(key)
    requires forall key :: key in right && key in s2 ==> s2[key].metadata == meta(key)
    requires forall key :: key !in left ==> Lookup(s1, key) == Lookup(s, key)
    requires forall key :: key !in right ==> Lookup(s2, key) == Lookup(s1, key)
    ensures Squashable(a, b) && IsNet(s, s2, left + right, meta, Squashed(a, b))
  {
    forall key
      ensures SquashAt(a, b, key) == Success(if key in left + right then NetOp(Lookup(s, key), Lookup(s2, key), meta(key)) else None)
    {
      assert At(a, key) == if key in left then NetOp(Lookup(s, key), Lookup(s1, key), meta(key)) else None;
      assert At(b, key) == if key in right then NetOp(Lookup(s1, key), Lookup(s2, key), meta(key)) else None;
      if key in left && key in right {
        NetOpsCompose(Lookup(s, key), Lookup(s1, key), Lookup(s2, key), meta(key));
      }
    }
    assert Squashable(a, b);
    forall key
      ensures At(Squashed(a, b), key) == if key in left + right then NetOp(Lookup(s, key), Lookup(s2, key), meta(key)) else None
    {
      SquashedAt(a, b, key);
    }
  }

  lemma LeafIsNet(meta: StateKey -> Metadata, s: State, ws: WriteSet)
    requires Runnable(s, ws) && Uniform(meta, ws)
    ensures IsNet(s, Apply(s, ws), ws.Keys, meta, ws)
  {
    forall key
      ensures At(ws, key) == if key in ws.Keys then NetOp(Lookup(s, key), Lookup(Apply(s, ws), key), meta(key)) else None
    {
      ApplyAt(s, ws, key);
    }
  }

  /** Every bracketing succeeds and yields the net effect of the run. */
  lemma {:induction false} BracketingIsNet(meta: StateKey -> Metadata, s: State, t: Bracketing)
    requires RunnableAll(s, t.Leaves()) && UniformAll(meta, t.Leaves())
    ensures t.Evaluate().Some?
    ensures IsNet(s, ApplyAll(s, t.Leaves()), Touched(t.Leaves()), meta, t.Evaluate().value)
    decreases t
  {
    match t
    case Leaf(ws) =>
      assert t.Leaves()[0] == ws && t.Leaves()[1..] == [];
      assert Touched(t.Leaves()) == ws.Keys;
      assert Uniform(meta, t.Leaves()[0]);
      LeafIsNet(meta, s, ws);
    case Node(l, r) =>
      var left, right := l.Leaves(), r.Leaves();
      UniformParts(meta, left, right);
      RunAppend(s, left, right);
      TouchedAppend(left, right);
      var s1 := ApplyAll(s, left);
      BracketingIsNet(meta, s, l);
      BracketingIsNet(meta, s1, r);
      RunIsFramed(meta, s, left);
      RunIsFramed(meta, s1, right);
      NetSquashes(s, s1, ApplyAll(s1, right), Touched(left), Touched(right), meta, l.Evaluate().value, r.Evaluate().value);
  }

  lemma UniformParts(meta: StateKey -> Metadata, a: seq<WriteSet>, b: seq<WriteSet>)
    requires UniformAll(meta, a + b)
    ensures UniformAll(meta, a) && UniformAll(meta, b)
  {
    assert forall i :: 0 <= i < |a| ==> (a + b)[i] == a[i];
    assert forall i :: 0 <= i < |b| ==> (a + b)[|a| + i] == b[i];
  }

  lemma RunIsFramed(meta: StateKey -> Metadata, s: State, sets: seq<WriteSet>)
    requires UniformAll(meta, sets)
    ensures forall key :: key in Touched(sets) && key in ApplyAll(s, sets) ==> ApplyAll(s, sets)[key].metadata == meta(key)
    ensures forall key :: key !in Touched(sets) ==> Lookup(ApplyAll(s, sets), key) == Lookup(s, key)
  {
    forall key | key in Touched(sets)
      ensures key in ApplyAll(s, sets) ==> ApplyAll(s, sets)[key].metadata == meta(key)
    {
      TouchedMetadata(meta, s, sets, key);
    }
    forall key | key !in Touched(sets)
      ensures Lookup(ApplyAll(s, sets), key) == Lookup(s, key)
    {
      UntouchedStays(s, sets, key);
    }
  }

  /** With uniform metadata, all bracketings of one runnable sequence give the same write set. */
  lemma BracketingsAgree(meta: StateKey -> Metadata, s: State, t: Bracketing, u: Bracketing)
    requires t.Leaves() == u.Leaves()
    requires RunnableAll(s, t.Leaves()) && UniformAll(meta, t.Leaves())
    ensures t.Evaluate().Some? && t.Evaluate() == u.Evaluate()
  {
    BracketingIsNet(meta, s, t);
    BracketingIsNet(meta, s, u);
    NetIsUnique(s, ApplyAll(s, t.Leaves()), Touched(t.Leaves()), meta, t.Evaluate().value, u.Evaluate().value);
  }

  /** Without uniform metadata the bracketing decides: deleting, recreating with other metadata
      and modifying squashes from the right but not from the left. */
  lemma MixedMetadataDependsOnBracketing()
    ensures exists s: State, a: WriteSet, b: WriteSet, c: WriteSet ::
              && RunnableAll(s, [a, b, c])
              && Node(Node(Leaf(a), Leaf(b)), Leaf(c)).Evaluate() == None
              && Node(Leaf(a), Node(Leaf(b), Leaf(c))).Evaluate().Some?
  {
    var k, m, m' := 0, Legacy, Metadata(1, 0, 0);
    var v, x, y := StateValue([0], m), StateValue([1], m'), StateValue([2], m');
    var a, b, c := map[k := Deletion(m)], map[k := Creation(x)], map[k := Modification(y)];
    RunnableExample(k, v, a, b, c);
    SquashesSingly(k, Leaf(a), Leaf(b), Deletion(m), Creation(x));
    SquashesSingly(k, Leaf(b), Leaf(c), Creation(x), Modification(y));
    var ab, bc := Node(Leaf(a), Leaf(b)), Node(Leaf(b), Leaf(c));
    SquashesSingly(k, ab, Leaf(c), Modification(StateValue([1], m)), Modification(y));
    SquashesSingly(k, Leaf(a), bc, Deletion(m), Creation(y));
  }

  /** Two bracketings that evaluate to one op each on the same key. */
  lemma SquashesSingly(k: StateKey, l: Bracketing, r: Bracketing, op: WriteOp, other: WriteOp)
    requires l.Evaluate() == Some(map[k := op]) && r.Evaluate() == Some(map[k := other])
    ensures SquashOp(op, other).Failure? ==> Node(l, r).Evaluate() == None
    ensures SquashOp(op, other).Success? && SquashOp(op, other).value.Some? ==>
              Node(l, r).Evaluate() == Some(map[k := SquashOp(op, other).value.value])
  {
    var first, second := map[k := op], map[k := other];
    assert SquashAt(first, second, k) == SquashOp(op, other);
    if SquashOp(op, other).Success? && SquashOp(op, other).value.Some? {
      assert SquashedKeys(first, second) == {k};
      assert Squashed(first, second) == map[k := SquashOp(op, other).value.value];
    }
  }

  lemma RunnableExample(k: StateKey, v: StateValue, a: WriteSet, b: WriteSet, c: WriteSet)
    requires a.Keys == b.Keys == c.Keys == {k}
    requires a[k].Deletion? && b[k].Creation? && c[k].Modification?
    ensures RunnableAll(map[k := v], [a, b, c])
  {
    assert Apply(map[k := v], a) == map[];
    assert Apply(map[], b) == map[k := b[k].value];
    RunnableThree(map[k := v], a, b, c);
  }

  lemma RunnableThree(s: State, a: WriteSet, b: WriteSet, c: WriteSet)
    requires Runnable(s, a) && Runnable(Apply(s, a), b) && Runnable(Apply(Apply(s, a), b), c)
    ensures RunnableAll(s, [a, b, c])
  {
    var s1 := Apply(s, a);
    var s2 := Apply(s1, b);
    assert RunnableAll(s2, [c]) by {
      assert [c][0] == c && [c][1..] == [];
    }
    assert RunnableAll(s1, [b, c]) by {
      assert [b, c][0] == b && [b, c][1..] == [c];
    }
    assert [a, b, c][0] == a && [a, b, c][1..] == [b, c];
  }
}
