/** Sampling without replacement: `pick_idxs` in the proptest helpers, Robert Floyd's
    algorithm F2. */
module FloydSampling {
  import opened Prelude

  /** A source of randomness: given a positive size, a number below it. */
  datatype PropIndex = PropIndex(index: nat -> nat)

  ghost predicate Fair(source: PropIndex) {
    forall size: nat :: size > 0 ==> source.index(size) < size
  }

  /** One round: take the drawn number, or the round's own number if that is taken already. */
  function Insert(selected: set<nat>, choice: nat, drawn: nat): set<nat> {
    if drawn in selected then selected + {choice} else selected + {drawn}
  }

  /** The rounds numbered `base`, `base + 1`, ... on the numbers drawn. */
  function Select(base: nat, drawn: seq<nat>): set<nat> {
    if drawn == [] then {}
    else
      var last := |drawn| - 1;
      Insert(Select(base, drawn[..last]), base + last, drawn[last])
  }

  function Min(a: nat, b: nat): (m: nat)
    ensures m <= a && m <= b && (m == a || m == b)
  {
    if a < b then a else b
  }

  /** What is drawn in the rounds of a call: round i draws below `base + i + 1`. */
  function Draws(indexes: seq<PropIndex>, base: nat, rounds: nat): (drawn: seq<nat>)
    requires rounds <= |indexes|
    ensures |drawn| == rounds
    ensures forall i :: 0 <= i < rounds ==> drawn[i] == indexes[i].index(base + i + 1)
  {
    seq(rounds, i requires 0 <= i < rounds => indexes[i].index(base + i + 1))
  }

  /** The set that `k` rounds below `max` select. */
  function SelectedSet(max: nat, indexes: seq<PropIndex>, k: nat): set<nat>
    requires k <= max && k <= |indexes|
  {
    Select(max - k, Draws(indexes, max - k, k))
  }

  /** `pick_idxs` on a slice. */
  method PickIdxs(max: nat, indexes: seq<PropIndex>, indexesLen: nat) returns (picked: seq<nat>)
    requires indexesLen <= |indexes|
    requires forall i :: 0 <= i < indexesLen ==> Fair(indexes[i])
    ensures picked == Ascending(SelectedSet(max, indexes, Min(indexesLen, max)))
    ensures |picked| == Min(indexesLen, max)
    ensures StrictlyIncreasing(picked) && forall x :: x in picked ==> x < max
  {
    var toSelect := Min(indexesLen, max);
    var base := max - toSelect;
    SelectedFacts(max, indexes, toSelect);
    var selected := SelectRounds(base, indexes, toSelect);
    assert selected == SelectedSet(max, indexes, toSelect);
    picked := AscendingOf(selected);
    assert picked == Ascending(SelectedSet(max, indexes, toSelect));
  }

  /** The loop of `pick_idxs`. */
  method SelectRounds(base: nat, indexes: seq<PropIndex>, rounds: nat) returns (selected: set<nat>)
    requires rounds <= |indexes|
    ensures selected == Select(base, Draws(indexes, base, rounds))
  {
    ghost var drawn := Draws(indexes, base, rounds);
    selected := {};
    for iterIdx := 0 to rounds
      invariant selected == Select(base, drawn[..iterIdx])
    {
      SelectStep(base, drawn, iterIdx);
      var choice := base + iterIdx;
      var idx := indexes[iterIdx].index(choice + 1);
      if idx in selected {
        selected := selected + {choice};
      } else {
        selected := selected + {idx};
      }
    }
    assert drawn[..rounds] == drawn;
  }

  lemma PickedFacts(base: nat, drawn: seq<nat>)
    requires IsChoice(base, drawn)
    ensures var picked := Ascending(Select(base, drawn));
            && |picked| == |drawn|
            && StrictlyIncreasing(picked)
            && forall x :: x in picked ==> x < base + |drawn|
  {
    SelectSize(base, drawn);
    assert forall x :: x in Ascending(Select(base, drawn)) ==> x in Select(base, drawn);
  }

  lemma SelectedFacts(max: nat, indexes: seq<PropIndex>, k: nat)
    requires k <= max && k <= |indexes| && forall i :: 0 <= i < k ==> Fair(indexes[i])
    ensures var picked := Ascending(SelectedSet(max, indexes, k));
            |picked| == k && StrictlyIncreasing(picked) && forall x :: x in picked ==> x < max
  {
    DrawsAreChoices(indexes, max - k, k);
    PickedFacts(max - k, Draws(indexes, max - k, k));
  }

  lemma SelectStep(base: nat, drawn: seq<nat>, k: nat)
    requires k < |drawn|
    ensures Select(base, drawn[..k + 1]) == Insert(Select(base, drawn[..k]), base + k, drawn[k])
  {
    assert drawn[..k + 1][..k] == drawn[..k];
  }

  /** What fair sources draw is a choice vector. */
  lemma DrawsAreChoices(indexes: seq<PropIndex>, base: nat, rounds: nat)
    requires rounds <= |indexes| && forall i :: 0 <= i < rounds ==> Fair(indexes[i])
    ensures IsChoice(base, Draws(indexes, base, rounds))
  {
    forall i | 0 <= i < rounds
      ensures Draws(indexes, base, rounds)[i] <= base + i
    {
      assert Fair(indexes[i]);
    }
  }

  /** Every choice vector is what some fair sources draw. */
  lemma ChoicesAreDraws(base: nat, drawn: seq<nat>) returns (indexes: seq<PropIndex>)
    requires IsChoice(base, drawn)
    ensures |indexes| == |drawn| && forall i :: 0 <= i < |indexes| ==> Fair(indexes[i])
    ensures Draws(indexes, base, |drawn|) == drawn
  {
    indexes := seq(|drawn|, i requires 0 <= i < |drawn| =>
      PropIndex((size: nat) => if drawn[i] < size then drawn[i] else 0));
  }

  // ---------- Choice vectors ----------

  /** A vector of draws the sources can produce: entry i is at most `base + i`. */
  predicate IsChoice(base: nat, drawn: seq<nat>) {
    forall i :: 0 <= i < |drawn| ==> drawn[i] <= base + i
  }

  /** All of them, as a set. */
  function ChoiceVectors(base: nat, rounds: nat): set<seq<nat>> {
    if rounds == 0 then {[]}
    else set c, x | c in ChoiceVectors(base, rounds - 1) && 0 <= x <= base + rounds - 1 :: c + [x]
  }

  lemma {:induction false} ChoiceVectorsExactly(base: nat, rounds: nat, drawn: seq<nat>)
    ensures drawn in ChoiceVectors(base, rounds) <==> |drawn| == rounds && IsChoice(base, drawn)
  {
    if rounds > 0 {
      if drawn != [] {
        var init, last := drawn[..|drawn| - 1], drawn[|drawn| - 1];
        assert drawn == init + [last];
        ChoiceVectorsExactly(base, rounds - 1, init);
        if |drawn| == rounds && IsChoice(base, drawn) {
          assert init in ChoiceVectors(base, rounds - 1) && 0 <= last <= base + rounds - 1;
        }
      }
      if drawn in ChoiceVectors(base, rounds) {
        var c, x :| c in ChoiceVectors(base, rounds - 1) && 0 <= x <= base + rounds - 1 && drawn == c + [x];
        ChoiceVectorsExactly(base, rounds - 1, c);
        assert forall i :: 0 <= i < |c| ==> drawn[i] == c[i];
      }
    }
  }

  /** Each round adds one new number, below the round's own or equal to it. */
  lemma {:induction false} SelectSize(base: nat, drawn: seq<nat>)
    requires IsChoice(base, drawn)
    ensures |Select(base, drawn)| == |drawn|
    ensures forall x :: x in Select(base, drawn) ==> x < base + |drawn|
  {
    if drawn != [] {
      var last := |drawn| - 1;
      SelectSize(base, drawn[..last]);
      assert base + last !in Select(base, drawn[..last]);
    }
  }

  // ---------- Uniformity ----------

  function Factorial(n: nat): nat {
    if n == 0 then 1 else n * Factorial(n - 1)
  }

  /** The choice vectors that select exactly `s`. */
  ghost function Preimage(base: nat, rounds: nat, s: set<nat>): set<seq<nat>> {
    set c | c in ChoiceVectors(base, rounds) && Select(base, c) == s
  }

  /** What must have been selected before the draw `x` completes `s`. */
  ghost function Before(s: set<nat>, top: nat, x: nat): set<nat> {
    if top in s then s - {top} else s - {x}
  }

  /** The last round, read backwards. */
  lemma InsertInverse(selected: set<nat>, top: nat, x: nat, s: set<nat>)
    requires forall y :: y in selected ==> y < top
    requires x <= top
    requires forall y :: y in s ==> y <= top
    ensures Insert(selected, top, x) == s <==> x in s && selected == Before(s, top, x)
  {
    if Insert(selected, top, x) == s {
      assert top !in selected;
      assert selected == Before(s, top, x);
    }
    if x in s && selected == Before(s, top, x) {
      if top in s {
        assert s == selected + {top};
        assert x in selected || x == top;
      } else {
        assert s == selected + {x};
      }
    }
  }

  ghost function EndingIn(vectors: set<seq<nat>>, x: nat): set<seq<nat>> {
    set c | c in vectors && c != [] && c[|c| - 1] == x
  }

  ghost function Extended(vectors: set<seq<nat>>, x: nat): set<seq<nat>> {
    set c | c in vectors :: c + [x]
  }

  lemma PreimageExactly(base: nat, rounds: nat, s: set<nat>, c: seq<nat>)
    ensures c in Preimage(base, rounds, s) <==> |c| == rounds && IsChoice(base, c) && Select(base, c) == s
  {
    ChoiceVectorsExactly(base, rounds, c);
  }

  lemma ChoiceAppend(base: nat, init: seq<nat>, x: nat)
    ensures IsChoice(base, init + [x]) <==> IsChoice(base, init) && x <= base + |init|
  {
    var c := init + [x];
    assert forall i :: 0 <= i < |init| ==> c[i] == init[i];
    assert c[|init|] == x;
  }

  /** A round takes the number it draws, or its own number if that one is taken. */
  lemma SelectAppend(base: nat, init: seq<nat>, x: nat)
    ensures Select(base, init + [x])
         == Select(base, init) + if x in Select(base, init) then {base + |init|} else {x}
  {
    var c := init + [x];
    assert c[..|c| - 1] == init && c[|c| - 1] == x;
    assert Select(base, c) == Insert(Select(base, init), base + |init|, x);
  }

  /** A vector selects `s` exactly when its last entry is in `s` and the rest of it selects
      what must have been there before. */
  lemma PreimageStep(base: nat, rounds: nat, s: set<nat>, init: seq<nat>, x: nat)
    requires rounds > 0 && forall y :: y in s ==> y < base + rounds
    ensures init + [x] in Preimage(base, rounds, s) <==>
            x in s && init in Preimage(base, rounds - 1, Before(s, base + rounds - 1, x))
  {
    var top := base + rounds - 1;
    PreimageExactly(base, rounds, s, init + [x]);
    PreimageExactly(base, rounds - 1, Before(s, top, x), init);
    ChoiceAppend(base, init, x);
    SelectAppend(base, init, x);
    if |init| == rounds - 1 && IsChoice(base, init) && x <= top {
      SelectSize(base, init);
      InsertInverse(Select(base, init), top, x, s);
    }
  }

  lemma PreimageLast(base: nat, rounds: nat, s: set<nat>, c: seq<nat>)
    requires rounds > 0 && forall y :: y in s ==> y < base + rounds
    requires c in Preimage(base, rounds, s)
    ensures c != [] && c[|c| - 1] in s
    ensures c[..|c| - 1] in Preimage(base, rounds - 1, Before(s, base + rounds - 1, c[|c| - 1]))
  {
    PreimageExactly(base, rounds, s, c);
    var init, x := c[..|c| - 1], c[|c| - 1];
    assert c == init + [x];
    PreimageStep(base, rounds, s, init, x);
  }

  /** The vectors of a preimage that end in `x` are the shorter preimage, extended by `x`. */
  lemma PreimageEndingIn(base: nat, rounds: nat, s: set<nat>, x: nat)
    requires rounds > 0 && x in s && forall y :: y in s ==> y < base + rounds
    ensures EndingIn(Preimage(base, rounds, s), x)
         == Extended(Preimage(base, rounds - 1, Before(s, base + rounds - 1, x)), x)
  {
    var all, shorter := Preimage(base, rounds, s), Preimage(base, rounds - 1, Before(s, base + rounds - 1, x));
    forall c | c in EndingIn(all, x)
      ensures c in Extended(shorter, x)
    {
      PreimageLast(base, rounds, s, c);
      assert c == c[..|c| - 1] + [x];
    }
    forall init | init in shorter
      ensures init + [x] in EndingIn(all, x)
    {
      PreimageStep(base, rounds, s, init, x);
    }
  }

  lemma AppendInjective(c: seq<nat>, d: seq<nat>, x: nat)
    requires c + [x] == d + [x]
    ensures c == d
  {
    assert c == (c + [x])[..|c|] && d == (d + [x])[..|d|];
    assert |c| == |c + [x]| - 1 == |d + [x]| - 1 == |d|;
  }

  lemma ExtendedStep(vectors: set<seq<nat>>, c: seq<nat>, x: nat)
    requires c in vectors
    ensures Extended(vectors, x) == Extended(vectors - {c}, x) + {c + [x]}
    ensures c + [x] !in Extended(vectors - {c}, x)
  {
    forall d | d in vectors - {c}
      ensures d + [x] != c + [x]
    {
      if d + [x] == c + [x] {
        AppendInjective(d, c, x);
      }
    }
  }

  /** Extending each of a set of vectors by one fixed number does not change how many there are. */
  lemma {:induction false} ExtendCount(vectors: set<seq<nat>>, x: nat)
    ensures |Extended(vectors, x)| == |vectors|
  {
    if vectors == {} {
      assert Extended(vectors, x) == {};
    } else {
      var c :| c in vectors;
      ExtendCount(vectors - {c}, x);
      ExtendedStep(vectors, c, x);
    }
  }

  /** Counting vectors by their last entry. */
  lemma {:induction false} CountByLast(vectors: set<seq<nat>>, lasts: set<nat>, n: nat)
    requires forall c :: c in vectors ==> c != [] && c[|c| - 1] in lasts
    requires forall x :: x in lasts ==> |EndingIn(vectors, x)| == n
    ensures |vectors| == |lasts| * n
  {
    if lasts == {} {
      assert vectors == {};
    } else {
      var x :| x in lasts;
      var ending := EndingIn(vectors, x);
      var others := vectors - ending;
      forall y | y in lasts - {x}
        ensures |EndingIn(others, y)| == n
      {
        assert EndingIn(others, y) == EndingIn(vectors, y);
      }
      CountByLast(others, lasts - {x}, n);
      assert vectors == others + ending;
      assert |vectors| == (|lasts| - 1) * n + n;
      assert (|lasts| - 1) * n + n == |lasts| * n;
    }
  }

  /** Floyd's theorem: every k-element subset of [0, base + k) is selected by exactly k! of
      the choice vectors. */
  lemma {:induction false} SamplingIsUniform(base: nat, rounds: nat, s: set<nat>)
    requires |s| == rounds && forall y :: y in s ==> y < base + rounds
    ensures |Preimage(base, rounds, s)| == Factorial(rounds)
  {
    if rounds == 0 {
      assert s == {};
      assert Preimage(base, 0, s) == {[]};
    } else {
      var all := Preimage(base, rounds, s);
      forall c | c in all
        ensures c != [] && c[|c| - 1] in s
      {
        PreimageLast(base, rounds, s, c);
      }
      forall x | x in s
        ensures |EndingIn(all, x)| == Factorial(rounds - 1)
      {
        var before := Before(s, base + rounds - 1, x);
        BeforeFits(base, rounds, s, x);
        PreimageEndingIn(base, rounds, s, x);
        ExtendCount(Preimage(base, rounds - 1, before), x);
        SamplingIsUniform(base, rounds - 1, before);
      }
      CountByLast(all, s, Factorial(rounds - 1));
    }
  }

  lemma BeforeFits(base: nat, rounds: nat, s: set<nat>, x: nat)
    requires rounds > 0 && |s| == rounds && x in s && forall y :: y in s ==> y < base + rounds
    ensures var before := Before(s, base + rounds - 1, x);
            |before| == rounds - 1 && forall y :: y in before ==> y < base + rounds - 1
  {
  }

  /** There are max! / (max - k)! choice vectors in all, so every subset is equally likely. */
  lemma {:induction false} ChoiceVectorCount(base: nat, rounds: nat)
    ensures |ChoiceVectors(base, rounds)| * Factorial(base) == Factorial(base + rounds)
  {
    if rounds > 0 {
      var shorter, top := ChoiceVectors(base, rounds - 1), base + rounds - 1;
      ChoiceVectorCount(base, rounds - 1);
      ChoiceVectorStep(base, rounds);
      MultiplyAssociative(top + 1, |shorter|, Factorial(base));
    }
  }

  lemma MultiplyAssociative(a: nat, b: nat, c: nat)
    ensures (a * b) * c == a * (b * c)
  {
  }

  lemma NumbersBelow(n: nat) returns (numbers: set<nat>)
    ensures |numbers| == n && forall x: nat :: x in numbers <==> x < n
  {
    UptoElements(n);
    DistinctLength(Upto(n));
    numbers := Elements(Upto(n));
  }

  lemma ChoiceVectorStep(base: nat, rounds: nat)
    requires rounds > 0
    ensures |ChoiceVectors(base, rounds)| == (base + rounds) * |ChoiceVectors(base, rounds - 1)|
  {
    var all, shorter := ChoiceVectors(base, rounds), ChoiceVectors(base, rounds - 1);
    var lasts := NumbersBelow(base + rounds);
    forall x | x in lasts
      ensures |EndingIn(all, x)| == |shorter|
    {
      ChoicesEndingIn(base, rounds, x);
      ExtendCount(shorter, x);
    }
    forall c | c in all
      ensures c != [] && c[|c| - 1] in lasts
    {
      ChoiceVectorsExactly(base, rounds, c);
    }
    CountByLast(all, lasts, |shorter|);
  }

  lemma ChoicesEndingIn(base: nat, rounds: nat, x: nat)
    requires rounds > 0 && x <= base + rounds - 1
    ensures EndingIn(ChoiceVectors(base, rounds), x) == Extended(ChoiceVectors(base, rounds - 1), x)
  {
    var all, shorter := ChoiceVectors(base, rounds), ChoiceVectors(base, rounds - 1);
    forall c | c in EndingIn(all, x)
      ensures c in Extended(shorter, x)
    {
      var d, y :| d in shorter && 0 <= y <= base + rounds - 1 && c == d + [y];
      assert y == x;
    }
  }

  // ---------- Uniformity of the operation ----------

  /** In a call that selects `k` numbers below `max`, the sources draw the vector `c`. */
  ghost predicate DrawVector(max: nat, k: nat, indexes: seq<PropIndex>, c: seq<nat>) {
    && k <= max && k <= |indexes| && |c| == k
    && forall i :: 0 <= i < k ==> Fair(indexes[i]) && indexes[i].index(max - k + i + 1) == c[i]
  }

  /** Whatever sources draw `c`, the call selects `s`. */
  ghost predicate Yields(max: nat, k: nat, c: seq<nat>, s: set<nat>) {
    forall indexes: seq<PropIndex> :: DrawVector(max, k, indexes, c) ==> SelectedSet(max, indexes, k) == s
  }

  lemma YieldsExactly(max: nat, k: nat, c: seq<nat>, s: set<nat>)
    requires k <= max && |c| == k && IsChoice(max - k, c)
    ensures Yields(max, k, c, s) <==> Select(max - k, c) == s
  {
    forall indexes: seq<PropIndex> | DrawVector(max, k, indexes, c)
      ensures SelectedSet(max, indexes, k) == Select(max - k, c)
    {
      assert Draws(indexes, max - k, k) == c;
    }
    var indexes := ChoicesAreDraws(max - k, c);
    assert forall i :: 0 <= i < k ==> Draws(indexes, max - k, k)[i] == c[i];
    assert DrawVector(max, k, indexes, c);
  }

  /** The vectors that make the call select `s`. */
  ghost function YieldingVectors(max: nat, k: nat, s: set<nat>): set<seq<nat>>
    requires k <= max
  {
    set c | c in ChoiceVectors(max - k, k) && Yields(max, k, c, s)
  }

  lemma YieldingInPreimage(max: nat, k: nat, s: set<nat>, c: seq<nat>)
    requires k <= max
    ensures c in YieldingVectors(max, k, s) <==> c in Preimage(max - k, k, s)
  {
    if c in ChoiceVectors(max - k, k) {
      ChoiceVectorsExactly(max - k, k, c);
      YieldsExactly(max, k, c, s);
    }
  }

  lemma YieldingIsPreimage(max: nat, k: nat, s: set<nat>)
    requires k <= max
    ensures YieldingVectors(max, k, s) == Preimage(max - k, k, s)
  {
    var a, b := YieldingVectors(max, k, s), Preimage(max - k, k, s);
    forall c: seq<nat>
      ensures c in a <==> c in b
    {
      YieldingInPreimage(max, k, s, c);
    }
    SameVectors(a, b);
  }

  lemma SameVectors(a: set<seq<nat>>, b: set<seq<nat>>)
    requires forall c :: c in a <==> c in b
    ensures a == b
  {
  }

  /** `pick_idxs` is uniform: of the vectors the sources can draw, of which `ChoiceVectorCount`
      says that there are max!/(max - k)!, exactly k! make it select any given k numbers below
      `max`. */
  lemma PickingIsUniform(max: nat, k: nat, s: set<nat>)
    requires k <= max && |s| == k && forall y :: y in s ==> y < max
    ensures |YieldingVectors(max, k, s)| == Factorial(k)
  {
    YieldingIsPreimage(max, k, s);
    SamplingIsUniform(max - k, k, s);
  }
}
