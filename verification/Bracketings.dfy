/** Exactly when the order of squashing does not matter: a condition on the ops of each key,
    to be read off a runnable sequence of write sets before anything is squashed. */
module Bracketings {
  import opened Prelude
  import opened WriteSets

  // ---------- The condition ----------

  /** What a sequence of write sets does to one key, in order. */
  function Ops(sets: seq<WriteSet>, key: StateKey): seq<WriteOp> {
    if sets == [] then []
    else (if key in sets[0] then [sets[0][key]] else []) + Ops(sets[1..], key)
  }

  /** All ops carry the same metadata. */
  ghost predicate OneMetadata(ops: seq<WriteOp>) {
    forall i, j :: 0 <= i < j < |ops| ==> ops[i].GetMetadata() == ops[j].GetMetadata()
  }

  /** All ops carry the same metadata, except that the last may differ if it is a creation. */
  ghost predicate OneMetadataUntilRecreated(ops: seq<WriteOp>) {
    forall i, j :: 0 <= i < j < |ops| && !(j == |ops| - 1 && ops[j].Creation?) ==>
      ops[i].GetMetadata() == ops[j].GetMetadata()
  }

  // ---------- One key of a bracketing ----------

  /** Squashing what two write sets do to one key; `None` if that fails. */
  function Merge(a: Option<WriteOp>, b: Option<WriteOp>): Option<Option<WriteOp>> {
    if b == None then Some(a)
    else if a == None then Some(b)
    else match SquashOp(a.value, b.value)
      case Success(merged) => Some(merged)
      case Failure(_) => None
  }

  function EvaluateAt(t: Bracketing, key: StateKey): Option<Option<WriteOp>> {
    match t
    case Leaf(ws) => Some(At(ws, key))
    case Node(l, r) =>
      match (EvaluateAt(l, key), EvaluateAt(r, key))
      case (Some(a), Some(b)) => Merge(a, b)
      case _ => None
  }

  lemma SquashesKeyByKey(a: WriteSet, b: WriteSet)
    ensures Squashable(a, b) ==> forall key :: Merge(At(a, key), At(b, key)) == Some(At(Squashed(a, b), key))
    ensures !Squashable(a, b) ==> exists key :: Merge(At(a, key), At(b, key)) == None
  {
    if Squashable(a, b) {
      forall key
        ensures Merge(At(a, key), At(b, key)) == Some(At(Squashed(a, b), key))
      {
        SquashedAt(a, b, key);
      }
    } else {
      var key :| key in a && key in b && SquashAt(a, b, key).Failure?;
      assert Merge(At(a, key), At(b, key)) == None;
    }
  }

  lemma EvaluateNode(l: Bracketing, r: Bracketing, key: StateKey)
    ensures EvaluateAt(l, key) == None ==> EvaluateAt(Node(l, r), key) == None
    ensures EvaluateAt(r, key) == None ==> EvaluateAt(Node(l, r), key) == None
    ensures EvaluateAt(l, key).Some? && EvaluateAt(r, key).Some? ==>
              EvaluateAt(Node(l, r), key) == Merge(EvaluateAt(l, key).value, EvaluateAt(r, key).value)
  {
  }

  /** A bracketing evaluates exactly when it does so at every key, and key by key. */
  lemma {:induction false} EvaluatesKeyByKey(t: Bracketing)
    ensures t.Evaluate().Some? ==> forall key :: EvaluateAt(t, key) == Some(At(t.Evaluate().value, key))
    ensures t.Evaluate() == None ==> exists key :: EvaluateAt(t, key) == None
  {
    match t
    case Leaf(_) =>
    case Node(l, r) =>
      EvaluatesKeyByKey(l);
      EvaluatesKeyByKey(r);
      if l.Evaluate() == None {
        var key :| EvaluateAt(l, key) == None;
        EvaluateNode(l, r, key);
      } else if r.Evaluate() == None {
        var key :| EvaluateAt(r, key) == None;
        EvaluateNode(l, r, key);
      } else {
        var a, b := l.Evaluate().value, r.Evaluate().value;
        SquashesKeyByKey(a, b);
        forall key
          ensures EvaluateAt(t, key) == Merge(At(a, key), At(b, key))
        {
          EvaluateNode(l, r, key);
        }
        if !Squashable(a, b) {
          var key :| Merge(At(a, key), At(b, key)) == None;
          assert EvaluateAt(t, key) == None;
        }
      }
  }

  // ---------- Runnable ops ----------

  predicate PresentAfter(present: bool, ops: seq<WriteOp>) {
    if ops == [] then present else !ops[|ops| - 1].Deletion?
  }

  /** Each op fits what the one before it leaves. */
  ghost predicate OpsFit(present: bool, ops: seq<WriteOp>) {
    forall i :: 0 <= i < |ops| ==> Fits(PresentAfter(present, ops[..i]), ops[i])
  }

  lemma OpsFirst(sets: seq<WriteSet>, key: StateKey)
    requires sets != []
    ensures key in sets[0] ==> Ops(sets, key) == [sets[0][key]] + Ops(sets[1..], key)
    ensures key !in sets[0] ==> Ops(sets, key) == Ops(sets[1..], key)
  {
  }

  lemma {:induction false} OpsAppend(a: seq<WriteSet>, b: seq<WriteSet>, key: StateKey)
    ensures Ops(a + b, key) == Ops(a, key) + Ops(b, key)
  {
    if a == [] {
      assert a + b == b;
    } else {
      assert (a + b)[0] == a[0] && (a + b)[1..] == a[1..] + b;
      OpsAppend(a[1..], b, key);
    }
  }

  lemma FitsFromFirst(present: bool, op: WriteOp, rest: seq<WriteOp>)
    requires Fits(present, op) && OpsFit(!op.Deletion?, rest)
    ensures OpsFit(present, [op] + rest)
  {
    var ops := [op] + rest;
    forall i | 0 <= i < |ops|
      ensures Fits(PresentAfter(present, ops[..i]), ops[i])
    {
      if i > 0 {
        assert Fits(PresentAfter(!op.Deletion?, rest[..i - 1]), rest[i - 1]);
      }
    }
  }

  lemma {:induction false} RunnableOpsFit(s: State, sets: seq<WriteSet>, key: StateKey)
    requires RunnableAll(s, sets)
    ensures OpsFit(key in s, Ops(sets, key))
    decreases |sets|
  {
    if sets != [] {
      ApplyAt(s, sets[0], key);
      RunnableOpsFit(Apply(s, sets[0]), sets[1..], key);
      if key in sets[0] {
        FitsFromFirst(key in s, sets[0][key], Ops(sets[1..], key));
      }
    }
  }

  lemma OpsFitParts(present: bool, left: seq<WriteOp>, right: seq<WriteOp>)
    requires OpsFit(present, left + right)
    ensures OpsFit(present, left) && OpsFit(PresentAfter(present, left), right)
  {
    var ops := left + right;
    forall i | 0 <= i < |left|
      ensures Fits(PresentAfter(present, left[..i]), left[i])
    {
      assert ops[i] == left[i] && ops[..i] == left[..i];
    }
    forall i | 0 <= i < |right|
      ensures Fits(PresentAfter(PresentAfter(present, left), right[..i]), right[i])
    {
      assert ops[|left| + i] == right[i] && ops[..|left| + i] == left + right[..i];
    }
  }

  lemma MetadataParts(left: seq<WriteOp>, right: seq<WriteOp>)
    requires OneMetadataUntilRecreated(left + right)
    ensures OneMetadataUntilRecreated(left) && OneMetadataUntilRecreated(right)
    ensures right != [] ==> OneMetadata(left)
    ensures left != [] && right != [] && !(|right| == 1 && right[0].Creation?) ==> right[0].GetMetadata() == left[0].GetMetadata()
  {
    var ops := left + right;
    assert forall i :: 0 <= i < |left| ==> ops[i] == left[i];
    assert forall i :: 0 <= i < |right| ==> ops[|left| + i] == right[i];
  }

  // ---------- The condition suffices ----------

  function BytesOf(op: WriteOp): Option<seq<nat>> {
    match op.StateValueRef()
    case Some(v) => Some(v.bytes)
    case None => None
  }

  /** What any bracketing makes of a key's ops: the kind follows from what was there before and
      what is there after, the bytes are the last op's, and the metadata the first op's.
      Only where a key was absent before may it be the last op's instead. */
  ghost predicate IsNetOf(present: bool, ops: seq<WriteOp>, r: Option<WriteOp>) {
    && (r == None <==> ops == [] || (!present && !PresentAfter(present, ops)))
    && (r.Some? ==>
          && Fits(present, r.value)
          && BytesOf(r.value) == BytesOf(ops[|ops| - 1])
          && (r.value.GetMetadata() == ops[0].GetMetadata() ||
              (!present && r.value.GetMetadata() == ops[|ops| - 1].GetMetadata())))
  }

  lemma NetMerges(present: bool, left: seq<WriteOp>, right: seq<WriteOp>, a: Option<WriteOp>, b: Option<WriteOp>)
    requires OpsFit(present, left + right) && OneMetadataUntilRecreated(left + right)
    requires IsNetOf(present, left, a) && IsNetOf(PresentAfter(present, left), right, b)
    ensures Merge(a, b).Some? && IsNetOf(present, left + right, Merge(a, b).value)
  {
    OpsFitParts(present, left, right);
    MetadataParts(left, right);
    if right == [] {
      assert left + right == left;
    } else if left == [] {
      assert left + right == right;
    } else if a.Some? && b.Some? {
      NetOpsMerge(present, left, right, a.value, b.value);
    } else {
      NetOpsAlone(present, left, right, a, b);
    }
  }

  lemma NetOpsAlone(present: bool, left: seq<WriteOp>, right: seq<WriteOp>, a: Option<WriteOp>, b: Option<WriteOp>)
    requires left != [] && right != [] && (a == None || b == None)
    requires !(|right| == 1 && right[0].Creation?) ==> right[0].GetMetadata() == left[0].GetMetadata()
    requires IsNetOf(present, left, a) && IsNetOf(PresentAfter(present, left), right, b)
    ensures Merge(a, b).Some? && IsNetOf(present, left + right, Merge(a, b).value)
  {
    assert (left + right)[0] == left[0] && (left + right)[|left + right| - 1] == right[|right| - 1];
  }

  lemma NetOpsMerge(present: bool, left: seq<WriteOp>, right: seq<WriteOp>, a: WriteOp, b: WriteOp)
    requires left != [] && right != [] && OpsFit(PresentAfter(present, left), right)
    requires OneMetadata(left)
    requires !(|right| == 1 && right[0].Creation?) ==> right[0].GetMetadata() == left[0].GetMetadata()
    requires IsNetOf(present, left, Some(a)) && IsNetOf(PresentAfter(present, left), right, Some(b))
    ensures Merge(Some(a), Some(b)).Some? && IsNetOf(present, left + right, Merge(Some(a), Some(b)).value)
  {
    assert (left + right)[0] == left[0] && (left + right)[|left + right| - 1] == right[|right| - 1];
    assert a.GetMetadata() == left[0].GetMetadata();
    assert Fits(PresentAfter(PresentAfter(present, left), right[..0]), right[0]);
    SquashOpMergesWell(present, a, b);
  }

  lemma LeafIsNetOf(present: bool, ws: WriteSet, key: StateKey)
    requires OpsFit(present, Ops([ws], key))
    ensures IsNetOf(present, Ops([ws], key), At(ws, key))
  {
    assert Ops([ws][1..], key) == [];
    var ops := Ops([ws], key);
    if key in ws {
      assert ops == [ws[key]];
      assert Fits(PresentAfter(present, ops[..0]), ops[0]);
    }
  }

  /** Under the condition every bracketing evaluates at the key, to the net op. */
  lemma {:induction false} EvaluatesToNet(present: bool, t: Bracketing, key: StateKey)
    requires OpsFit(present, Ops(t.Leaves(), key)) && OneMetadataUntilRecreated(Ops(t.Leaves(), key))
    ensures EvaluateAt(t, key).Some? && IsNetOf(present, Ops(t.Leaves(), key), EvaluateAt(t, key).value)
    decreases t
  {
    match t
    case Leaf(ws) =>
      LeafIsNetOf(present, ws, key);
    case Node(l, r) =>
      var left, right := Ops(l.Leaves(), key), Ops(r.Leaves(), key);
      OpsAppend(l.Leaves(), r.Leaves(), key);
      OpsFitParts(present, left, right);
      MetadataParts(left, right);
      EvaluatesToNet(present, l, key);
      EvaluatesToNet(PresentAfter(present, left), r, key);
      var a, b := EvaluateAt(l, key).value, EvaluateAt(r, key).value;
      NetMerges(present, left, right, a, b);
      EvaluateNode(l, r, key);
  }

  /** Where the metadata is not in doubt, there is only one net op. */
  lemma NetIsDetermined(present: bool, ops: seq<WriteOp>, a: Option<WriteOp>, b: Option<WriteOp>)
    requires IsNetOf(present, ops, a) && IsNetOf(present, ops, b)
    requires !present ==> OneMetadata(ops)
    ensures a == b
  {
    if a.Some? {
      assert a.value.GetMetadata() == ops[0].GetMetadata() == b.value.GetMetadata();
    }
  }

  // ---------- Building bracketings ----------

  /** Appends write sets one by one. */
  function FromLeft(t: Bracketing, sets: seq<WriteSet>): Bracketing
    decreases |sets|
  {
    if sets == [] then t else FromLeft(Node(t, Leaf(sets[0])), sets[1..])
  }

  /** Puts write sets in front, one by one. */
  function FromRight(sets: seq<WriteSet>, t: Bracketing): Bracketing {
    if sets == [] then t else Node(Leaf(sets[0]), FromRight(sets[1..], t))
  }

  function LeftToRight(sets: seq<WriteSet>): Bracketing
    requires sets != []
  {
    FromLeft(Leaf(sets[0]), sets[1..])
  }

  function MergeOps(a: Option<WriteOp>, ops: seq<WriteOp>): Option<Option<WriteOp>>
    decreases |ops|
  {
    if ops == [] then Some(a)
    else match Merge(a, Some(ops[0]))
      case None => None
      case Some(b) => MergeOps(b, ops[1..])
  }

  lemma MergeFirst(a: Option<WriteOp>, op: WriteOp, rest: seq<WriteOp>)
    ensures Merge(a, Some(op)) == None ==> MergeOps(a, [op] + rest) == None
    ensures Merge(a, Some(op)).Some? ==> MergeOps(a, [op] + rest) == MergeOps(Merge(a, Some(op)).value, rest)
  {
    assert ([op] + rest)[1..] == rest;
  }

  lemma {:induction false} FromLeftAt(t: Bracketing, sets: seq<WriteSet>, key: StateKey)
    ensures FromLeft(t, sets).Leaves() == t.Leaves() + sets
    ensures EvaluateAt(t, key) == None ==> EvaluateAt(FromLeft(t, sets), key) == None
    ensures EvaluateAt(t, key).Some? ==> EvaluateAt(FromLeft(t, sets), key) == MergeOps(EvaluateAt(t, key).value, Ops(sets, key))
    decreases |sets|
  {
    if sets != [] {
      FromLeftAt(Node(t, Leaf(sets[0])), sets[1..], key);
      EvaluateNode(t, Leaf(sets[0]), key);
      assert t.Leaves() + sets == t.Leaves() + [sets[0]] + sets[1..];
      OpsFirst(sets, key);
      if key in sets[0] && EvaluateAt(t, key).Some? {
        MergeFirst(EvaluateAt(t, key).value, sets[0][key], Ops(sets[1..], key));
      }
    }
  }

  lemma LeftToRightAt(sets: seq<WriteSet>, key: StateKey)
    requires sets != []
    ensures LeftToRight(sets).Leaves() == sets
    ensures EvaluateAt(LeftToRight(sets), key) == MergeOps(None, Ops(sets, key))
  {
    FromLeftAt(Leaf(sets[0]), sets[1..], key);
    assert sets == [sets[0]] + sets[1..];
    OpsFirst(sets, key);
    if key in sets[0] {
      MergeFirst(None, sets[0][key], Ops(sets[1..], key));
    }
  }

  lemma {:induction false} FromRightFails(sets: seq<WriteSet>, t: Bracketing, key: StateKey)
    ensures FromRight(sets, t).Leaves() == sets + t.Leaves()
    ensures EvaluateAt(t, key) == None ==> EvaluateAt(FromRight(sets, t), key) == None
  {
    if sets != [] {
      FromRightFails(sets[1..], t, key);
      assert sets == [sets[0]] + sets[1..];
    }
  }

  /** Any split of a key's ops is a split of the write sets. */
  lemma {:induction false} CutAt(sets: seq<WriteSet>, key: StateKey, i: nat) returns (cut: nat)
    requires i <= |Ops(sets, key)|
    ensures cut <= |sets|
    ensures Ops(sets[..cut], key) == Ops(sets, key)[..i] && Ops(sets[cut..], key) == Ops(sets, key)[i..]
  {
    if i == 0 {
      cut := 0;
      assert sets[0..] == sets;
    } else {
      var here := if key in sets[0] then 1 else 0;
      var rest := CutAt(sets[1..], key, i - here);
      cut := rest + 1;
      assert sets[..cut][0] == sets[0] && sets[..cut][1..] == sets[1..][..rest];
      assert sets[cut..] == sets[1..][rest..];
    }
  }

  lemma CutOut(sets: seq<WriteSet>, key: StateKey, i: nat, j: nat)
    returns (before: seq<WriteSet>, stretch: seq<WriteSet>, after: seq<WriteSet>)
    requires i <= j <= |Ops(sets, key)|
    ensures sets == before + (stretch + after) && Ops(stretch, key) == Ops(sets, key)[i..j]
  {
    var from := CutAt(sets, key, i);
    var rest := sets[from..];
    var length := CutAt(rest, key, j - i);
    before, stretch, after := sets[..from], rest[..length], rest[length..];
    assert Ops(sets, key)[i..][..j - i] == Ops(sets, key)[i..j];
  }

  /** If some stretch of a key's ops cannot be squashed left to right, some bracketing fails. */
  lemma StretchFails(sets: seq<WriteSet>, key: StateKey, i: nat, j: nat) returns (t: Bracketing)
    requires i < j <= |Ops(sets, key)| && MergeOps(None, Ops(sets, key)[i..j]) == None
    ensures t.Leaves() == sets && t.Evaluate() == None
  {
    var before, stretch, after := CutOut(sets, key, i, j);
    assert stretch != [];
    LeftToRightAt(stretch, key);
    FromLeftAt(LeftToRight(stretch), after, key);
    FromRightFails(before, FromLeft(LeftToRight(stretch), after), key);
    t := FromRight(before, FromLeft(LeftToRight(stretch), after));
    EvaluatesKeyByKey(t);
  }

  // ---------- The condition is necessary ----------

  /** Where the condition first fails: ops `j - 1` and `j` disagree. */
  lemma {:induction false} FirstMismatch(ops: seq<WriteOp>, n: nat) returns (j: nat)
    requires n <= |ops| && !OneMetadata(ops[..n])
    ensures 0 < j < n && ops[j - 1].GetMetadata() != ops[j].GetMetadata()
  {
    if OneMetadata(ops[..n - 1]) {
      j := n - 1;
      assert forall i :: 0 <= i < n - 1 ==> ops[..n][i] == ops[..n - 1][i];
      assert ops[..n][n - 1] == ops[n - 1] && (n > 1 ==> ops[..n - 1][n - 2] == ops[n - 2]);
    } else {
      j := FirstMismatch(ops, n - 1);
    }
  }

  lemma MergeTwo(op: WriteOp, other: WriteOp)
    ensures MergeOps(None, [op, other]) == Merge(Some(op), Some(other))
  {
    MergeFirst(None, op, [other]);
    MergeFirst(Some(op), other, []);
  }

  /** A recreation that disagrees with the deletion before it cannot be followed by anything. */
  lemma RecreationFails(deletion: WriteOp, creation: WriteOp, other: WriteOp)
    requires deletion.Deletion? && creation.Creation? && !other.Creation?
    requires deletion.GetMetadata() != creation.GetMetadata() == other.GetMetadata()
    ensures MergeOps(None, [deletion, creation, other]) == None
  {
    var merged := Modification(StateValue(creation.value.bytes, deletion.deleted));
    MergeFirst(None, deletion, [creation, other]);
    MergeFirst(Some(deletion), creation, [other]);
    MergeFirst(Some(merged), other, []);
  }

  lemma PairFails(ops: seq<WriteOp>, k: nat)
    requires 0 < k < |ops| && ops[k - 1].GetMetadata() != ops[k].GetMetadata() && !ops[k].Creation?
    ensures MergeOps(None, ops[k - 1..k + 1]) == None
  {
    MergeTwo(ops[k - 1], ops[k]);
    assert ops[k - 1..k + 1] == [ops[k - 1], ops[k]];
  }

  lemma TripleFails(ops: seq<WriteOp>, k: nat)
    requires 0 < k < |ops| - 1 && ops[k - 1].Deletion? && ops[k].Creation? && !ops[k + 1].Creation?
    requires ops[k - 1].GetMetadata() != ops[k].GetMetadata() == ops[k + 1].GetMetadata()
    ensures MergeOps(None, ops[k - 1..k + 2]) == None
  {
    RecreationFails(ops[k - 1], ops[k], ops[k + 1]);
    assert ops[k - 1..k + 2] == [ops[k - 1], ops[k], ops[k + 1]];
  }

  lemma FitsNext(present: bool, ops: seq<WriteOp>, k: nat)
    requires OpsFit(present, ops) && 0 < k < |ops|
    ensures ops[k].Creation? <==> ops[k - 1].Deletion?
  {
    assert Fits(PresentAfter(present, ops[..k]), ops[k]);
  }

  /** The stretch of ops that fails: two neighbours, or a deletion, a recreation and what
      follows it. */
  lemma FailingStretch(present: bool, ops: seq<WriteOp>) returns (i: nat, j: nat)
    requires OpsFit(present, ops) && !OneMetadataUntilRecreated(ops)
    ensures i < j <= |ops| && MergeOps(None, ops[i..j]) == None
  {
    var k := MismatchToCheck(ops);
    if !ops[k].Creation? {
      PairFails(ops, k);
      return k - 1, k + 1;
    }
    FitsNext(present, ops, k);
    FitsNext(present, ops, k + 1);
    if ops[k].GetMetadata() != ops[k + 1].GetMetadata() {
      PairFails(ops, k + 1);
      return k, k + 2;
    }
    TripleFails(ops, k);
    return k - 1, k + 2;
  }

  lemma MismatchToCheck(ops: seq<WriteOp>) returns (k: nat)
    requires !OneMetadataUntilRecreated(ops)
    ensures 0 < k < |ops| && ops[k - 1].GetMetadata() != ops[k].GetMetadata()
    ensures ops[k].Creation? ==> k + 1 < |ops|
  {
    var n := |ops|;
    var i, j :| 0 <= i < j < n && !(j == n - 1 && ops[j].Creation?) && ops[i].GetMetadata() != ops[j].GetMetadata();
    var checked := if ops[n - 1].Creation? then n - 1 else n;
    assert ops[..checked][i] == ops[i] && ops[..checked][j] == ops[j];
    k := FirstMismatch(ops, checked);
  }

  /** The condition for evaluating. */
  ghost predicate Settled(sets: seq<WriteSet>) {
    forall key :: OneMetadataUntilRecreated(Ops(sets, key))
  }

  ghost predicate EveryBracketingEvaluates(sets: seq<WriteSet>) {
    forall t: Bracketing :: t.Leaves() == sets ==> t.Evaluate().Some?
  }

  /** A runnable sequence squashes under every bracketing exactly when for every key all ops
      carry one metadata, a creation at the end excepted. */
  lemma EvaluatesExactly(s: State, sets: seq<WriteSet>)
    requires RunnableAll(s, sets)
    ensures EveryBracketingEvaluates(sets) <==> Settled(sets)
  {
    if Settled(sets) {
      forall t: Bracketing | t.Leaves() == sets
        ensures t.Evaluate().Some?
      {
        SettledEvaluates(s, t);
      }
    } else {
      var key :| !OneMetadataUntilRecreated(Ops(sets, key));
      RunnableOpsFit(s, sets, key);
      var i, j := FailingStretch(key in s, Ops(sets, key));
      var t := StretchFails(sets, key, i, j);
    }
  }

  lemma SettledEvaluates(s: State, t: Bracketing)
    requires RunnableAll(s, t.Leaves()) && Settled(t.Leaves())
    ensures t.Evaluate().Some?
    ensures forall key :: IsNetOf(key in s, Ops(t.Leaves(), key), At(t.Evaluate().value, key))
  {
    EvaluatesKeyByKey(t);
    forall key
      ensures EvaluateAt(t, key).Some? && IsNetOf(key in s, Ops(t.Leaves(), key), EvaluateAt(t, key).value)
    {
      RunnableOpsFit(s, t.Leaves(), key);
      EvaluatesToNet(key in s, t, key);
    }
  }

  // ---------- Agreement ----------

  /** The condition for agreeing. */
  ghost predicate SettledFrom(s: State, sets: seq<WriteSet>) {
    Settled(sets) && forall key :: key !in s ==> OneMetadata(Ops(sets, key))
  }

  ghost predicate AllBracketingsAgree(sets: seq<WriteSet>) {
    forall t: Bracketing, u: Bracketing :: t.Leaves() == sets && u.Leaves() == sets ==> t.Evaluate() == u.Evaluate()
  }

  lemma SettledAgree(s: State, t: Bracketing, u: Bracketing)
    requires t.Leaves() == u.Leaves() && RunnableAll(s, t.Leaves()) && SettledFrom(s, t.Leaves())
    ensures t.Evaluate() == u.Evaluate()
  {
    SettledEvaluates(s, t);
    SettledEvaluates(s, u);
    var a, b := t.Evaluate().value, u.Evaluate().value;
    forall key
      ensures At(a, key) == At(b, key)
    {
      NetIsDetermined(key in s, Ops(t.Leaves(), key), At(a, key), At(b, key));
    }
    SameEverywhere(a, b);
  }

  /** Squashing the two parts of a split of a key's ops, each from left to right. */
  lemma SplitBracketing(s: State, sets: seq<WriteSet>, key: StateKey, i: nat)
    returns (t: Bracketing, a: Option<WriteOp>)
    requires RunnableAll(s, sets) && OneMetadataUntilRecreated(Ops(sets, key))
    requires 0 < i < |Ops(sets, key)| && MergeOps(None, Ops(sets, key)[i..]).Some?
    ensures t.Leaves() == sets
    ensures IsNetOf(key in s, Ops(sets, key)[..i], a)
    ensures EvaluateAt(t, key) == Merge(a, MergeOps(None, Ops(sets, key)[i..]).value)
  {
    var cut := CutAt(sets, key, i);
    var left, right := LeftToRight(sets[..cut]), LeftToRight(sets[cut..]);
    LeftToRightAt(sets[..cut], key);
    LeftToRightAt(sets[cut..], key);
    PrefixIsNet(s, sets, key, i, left);
    a := EvaluateAt(left, key).value;
    EvaluateNode(left, right, key);
    t := Node(left, right);
    assert sets == sets[..cut] + sets[cut..];
  }

  lemma PrefixIsNet(s: State, sets: seq<WriteSet>, key: StateKey, i: nat, left: Bracketing)
    requires RunnableAll(s, sets) && OneMetadataUntilRecreated(Ops(sets, key))
    requires i <= |Ops(sets, key)| && Ops(left.Leaves(), key) == Ops(sets, key)[..i]
    ensures EvaluateAt(left, key).Some? && IsNetOf(key in s, Ops(sets, key)[..i], EvaluateAt(left, key).value)
  {
    var ops := Ops(sets, key);
    assert ops == ops[..i] + ops[i..];
    RunnableOpsFit(s, sets, key);
    OpsFitParts(key in s, ops[..i], ops[i..]);
    MetadataParts(ops[..i], ops[i..]);
    EvaluatesToNet(key in s, left, key);
  }

  /** A key that was absent and at last is recreated with other metadata has been created and
      deleted before. */
  lemma RecreatedShape(ops: seq<WriteOp>)
    requires OpsFit(false, ops) && OneMetadataUntilRecreated(ops) && !OneMetadata(ops)
    ensures |ops| > 2 && ops[|ops| - 1].Creation? && ops[|ops| - 2].Deletion? && !ops[|ops| - 3].Deletion?
    ensures ops[|ops| - 1].GetMetadata() != ops[0].GetMetadata()
    ensures ops[|ops| - 2].GetMetadata() == ops[|ops| - 3].GetMetadata() == ops[0].GetMetadata()
  {
    var n := |ops|;
    assert Fits(PresentAfter(false, ops[..0]), ops[0]);
    assert Fits(PresentAfter(false, ops[..n - 1]), ops[n - 1]);
    assert Fits(PresentAfter(false, ops[..n - 2]), ops[n - 2]);
  }

  /** The deletion squashed with what came before: the recreation's metadata is left. */
  lemma RecreatedLast(s: State, sets: seq<WriteSet>, key: StateKey) returns (t: Bracketing)
    requires RunnableAll(s, sets) && key !in s
    requires OneMetadataUntilRecreated(Ops(sets, key)) && !OneMetadata(Ops(sets, key))
    ensures t.Leaves() == sets && EvaluateAt(t, key) == Some(Some(Ops(sets, key)[|Ops(sets, key)| - 1]))
  {
    var ops := Ops(sets, key);
    var n := |ops|;
    RunnableOpsFit(s, sets, key);
    RecreatedShape(ops);
    MergeFirst(None, ops[n - 1], []);
    assert ops[n - 1..] == [ops[n - 1]];
    var a;
    t, a := SplitBracketing(s, sets, key, n - 1);
    assert a == None;
  }

  /** The deletion squashed with the recreation: the earlier metadata is left. */
  lemma RecreatedFirst(s: State, sets: seq<WriteSet>, key: StateKey) returns (t: Bracketing)
    requires RunnableAll(s, sets) && key !in s
    requires OneMetadataUntilRecreated(Ops(sets, key)) && !OneMetadata(Ops(sets, key))
    ensures t.Leaves() == sets && EvaluateAt(t, key).Some?
    ensures EvaluateAt(t, key).value.Some? && EvaluateAt(t, key).value.value.GetMetadata() == Ops(sets, key)[0].GetMetadata()
  {
    var ops := Ops(sets, key);
    var n := |ops|;
    RunnableOpsFit(s, sets, key);
    RecreatedShape(ops);
    MergeTwo(ops[n - 2], ops[n - 1]);
    assert ops[n - 2..] == [ops[n - 2], ops[n - 1]];
    var a;
    t, a := SplitBracketing(s, sets, key, n - 2);
    NetCreation(ops, n - 2, a);
    RecreationMerges(a.value, ops[n - 2], ops[n - 1]);
  }

  lemma NetCreation(ops: seq<WriteOp>, n: nat, a: Option<WriteOp>)
    requires 0 < n <= |ops| && IsNetOf(false, ops[..n], a) && !ops[n - 1].Deletion?
    requires ops[n - 1].GetMetadata() == ops[0].GetMetadata()
    ensures a.Some? && a.value.Creation? && a.value.GetMetadata() == ops[0].GetMetadata()
  {
    assert ops[..n][n - 1] == ops[n - 1] && ops[..n][0] == ops[0];
  }

  lemma RecreationMerges(first: WriteOp, deletion: WriteOp, creation: WriteOp)
    requires first.Creation? && deletion.Deletion? && creation.Creation?
    requires first.GetMetadata() == deletion.GetMetadata()
    ensures var merged := Merge(Some(deletion), Some(creation));
            && merged.Some? && Merge(Some(first), merged.value).Some? && Merge(Some(first), merged.value).value.Some?
            && Merge(Some(first), merged.value).value.value.GetMetadata() == first.GetMetadata()
  {
  }

  /** All bracketings of a runnable sequence evaluate to the same write set exactly when for
      every key all ops carry one metadata, except that a key which was present at the start
      may be recreated with other metadata at the end. */
  lemma AgreeExactly(s: State, sets: seq<WriteSet>)
    requires RunnableAll(s, sets)
    ensures EveryBracketingEvaluates(sets) && AllBracketingsAgree(sets) <==> SettledFrom(s, sets)
  {
    EvaluatesExactly(s, sets);
    if SettledFrom(s, sets) {
      forall t: Bracketing, u: Bracketing | t.Leaves() == sets && u.Leaves() == sets
        ensures t.Evaluate() == u.Evaluate()
      {
        SettledAgree(s, t, u);
      }
    } else if Settled(sets) {
      var key :| key !in s && !OneMetadata(Ops(sets, key));
      RunnableOpsFit(s, sets, key);
      RecreatedShape(Ops(sets, key));
      var t := RecreatedLast(s, sets, key);
      var u := RecreatedFirst(s, sets, key);
      EvaluatesKeyByKey(t);
      EvaluatesKeyByKey(u);
    }
  }
}
