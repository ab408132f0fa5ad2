/** A run-length vector with batch deletion: `repeat_vec.rs` in the proptest helpers. */
module RepeatVecs {
  import opened Prelude
  import opened FloydSampling

  // ---------- Deleting positions from a plain sequence ----------

  /** `s` without the elements at the positions in `gone`. */
  ghost function RemovePositions<T>(s: seq<T>, gone: set<nat>): seq<T> {
    if s == [] then []
    else
      var last := |s| - 1;
      RemovePositions(s[..last], gone) + if last in gone then [] else [s[last]]
  }

  lemma {:induction false} RemoveSuffixUntouched<T>(a: seq<T>, b: seq<T>, gone: set<nat>)
    requires forall p :: p in gone ==> p < |a| || p >= |a| + |b|
    ensures RemovePositions(a + b, gone) == RemovePositions(a, gone) + b
  {
    if b == [] {
      assert a + b == a;
    } else {
      var last := |b| - 1;
      RemoveSuffixUntouched(a, b[..last], gone);
      assert (a + b)[..|a + b| - 1] == a + b[..last];
      assert b == b[..last] + [b[last]];
    }
  }

  lemma RemoveNothing<T>(s: seq<T>, gone: set<nat>)
    requires forall p :: p in gone ==> p >= |s|
    ensures RemovePositions(s, gone) == s
  {
    RemoveSuffixUntouched([], s, gone);
    assert [] + s == s;
  }

  /** Exactly the in-range positions disappear. */
  lemma {:induction false} RemoveLength<T>(s: seq<T>, gone: set<nat>)
    ensures |RemovePositions(s, gone)| + |BelowLength(gone, |s|)| == |s|
  {
    if s == [] {
      assert BelowLength(gone, 0) == {};
    } else {
      var last := |s| - 1;
      RemoveLength(s[..last], gone);
      assert BelowLength(gone, |s|) == if last in gone then BelowLength(gone, last) + {last} else BelowLength(gone, last);
    }
  }

  /** What stays keeps its order: an element moves down by the number of positions removed below it. */
  lemma {:induction false} RemoveMovesDown<T>(s: seq<T>, gone: set<nat>, p: nat)
    requires p < |s| && p !in gone
    ensures |BelowLength(gone, p)| <= p && p - |BelowLength(gone, p)| < |RemovePositions(s, gone)|
    ensures RemovePositions(s, gone)[p - |BelowLength(gone, p)|] == s[p]
  {
    var last := |s| - 1;
    RemoveLength(s[..last], gone);
    if p < last {
      RemoveMovesDown(s[..last], gone, p);
    }
  }

  ghost function BelowLength(gone: set<nat>, n: nat): set<nat> {
    set p | p in gone && p < n
  }

  function RemoveAt<T>(s: seq<T>, i: nat): seq<T> {
    if i < |s| then s[..i] + s[i + 1..] else s
  }

  /** Removing one position at a time, the highest first. */
  function RemoveFromHighest<T>(s: seq<T>, ascending: seq<nat>): seq<T>
    decreases |ascending|
  {
    if ascending == [] then s
    else RemoveFromHighest(RemoveAt(s, ascending[|ascending| - 1]), ascending[..|ascending| - 1])
  }

  lemma {:induction false} RemoveOutOfRange<T>(s: seq<T>, gone: set<nat>, p: nat)
    requires p >= |s|
    ensures RemovePositions(s, gone + {p}) == RemovePositions(s, gone)
  {
    if s != [] {
      RemoveOutOfRange(s[..|s| - 1], gone, p);
    }
  }

  /** The highest position can go first. */
  lemma RemoveHighestFirst<T>(s: seq<T>, lower: set<nat>, top: nat)
    requires forall p :: p in lower ==> p < top
    ensures RemovePositions(s, lower + {top}) == RemovePositions(RemoveAt(s, top), lower)
  {
    if top < |s| {
      var a, b := s[..top], s[top + 1..];
      assert s == (a + [s[top]]) + b;
      RemoveSuffixUntouched(a + [s[top]], b, lower + {top});
      assert (a + [s[top]])[..top] == a;
      RemoveOutOfRange(a, lower, top);
      RemoveSuffixUntouched(a, b, lower);
    } else {
      RemoveOutOfRange(s, lower, top);
    }
  }

  /** Batch deletion is deletion one at a time from the highest position down. */
  lemma {:induction false} BatchIsOneByOne<T>(s: seq<T>, ascending: seq<nat>)
    requires StrictlyIncreasing(ascending)
    ensures RemovePositions(s, Elements(ascending)) == RemoveFromHighest(s, ascending)
    decreases |ascending|
  {
    if ascending == [] {
      RemoveNothing(s, Elements(ascending));
    } else {
      var init, top := ascending[..|ascending| - 1], ascending[|ascending| - 1];
      assert ascending == init + [top];
      ElementsAppend(init, top);
      assert forall p :: p in Elements(init) ==> p < top;
      RemoveHighestFirst(s, Elements(init), top);
      BatchIsOneByOne(RemoveAt(s, top), init);
    }
  }

  // ---------- Runs ----------

  /** A stored element with the logical position of its first copy. */
  datatype Run<T> = Run(start: nat, elem: T)

  /** Run starts are strictly increasing from 0 and the last is below the length. */
  ghost predicate WellFormedRuns<T>(items: seq<Run<T>>, len: nat) {
    && (items == [] ==> len == 0)
    && (items != [] ==> items[0].start == 0 && items[|items| - 1].start < len)
    && forall i, j :: 0 <= i < j < |items| ==> items[i].start < items[j].start
  }

  function Repeat<T>(x: T, n: nat): (r: seq<T>)
    ensures |r| == n && forall i :: 0 <= i < n ==> r[i] == x
  {
    seq(n, i => x)
  }

  /** The logical sequence. */
  ghost function Expand<T>(items: seq<Run<T>>, len: nat): (s: seq<T>)
    requires WellFormedRuns(items, len)
    ensures |s| == len
  {
    if items == [] then []
    else
      var last := |items| - 1;
      var Run(start, elem) := items[last];
      Expand(items[..last], start) + Repeat(elem, len - start)
  }

  /** Where a run ends. */
  function RunEnd<T>(items: seq<Run<T>>, len: nat, j: nat): nat
    requires j <= |items|
  {
    if j < |items| then items[j].start else len
  }

  /** The pair of an element and an offset is a stored run's element and how far into that run
      position `i` is. */
  ghost predicate IsCopy<T>(items: seq<Run<T>>, len: nat, i: nat, copy: (T, nat)) {
    exists j :: 0 <= j < |items| && items[j].start + copy.1 == i < RunEnd(items, len, j + 1) && items[j].elem == copy.0
  }

  lemma {:induction false} ExpandInRun<T>(items: seq<Run<T>>, len: nat, j: nat, i: nat)
    requires WellFormedRuns(items, len) && j < |items|
    requires items[j].start <= i < RunEnd(items, len, j + 1)
    ensures i < len && Expand(items, len)[i] == items[j].elem
  {
    var last := |items| - 1;
    if j < last {
      assert items[j + 1].start <= items[last].start;
      ExpandInRun(items[..last], items[last].start, j, i);
    }
  }

  lemma ExpandPrefix<T>(items: seq<Run<T>>, len: nat, j: nat)
    requires WellFormedRuns(items, len) && j < |items|
    ensures WellFormedRuns(items[..j], items[j].start)
    ensures WellFormedRuns(items[..j + 1], RunEnd(items, len, j + 1))
    ensures Expand(items[..j + 1], RunEnd(items, len, j + 1))
         == Expand(items[..j], items[j].start) + Repeat(items[j].elem, RunEnd(items, len, j + 1) - items[j].start)
  {
    assert items[..j + 1][..j] == items[..j];
  }

  lemma ExpandAppend<T>(items: seq<Run<T>>, len: nat, elem: T, n: nat)
    requires WellFormedRuns(items, len) && n > 0
    ensures WellFormedRuns(items + [Run(len, elem)], len + n)
    ensures Expand(items + [Run(len, elem)], len + n) == Expand(items, len) + Repeat(elem, n)
  {
    var longer := items + [Run(len, elem)];
    assert longer[..|longer| - 1] == items;
  }

  // ---------- Counting removed positions ----------

  /** The first `n` of the sorted positions are those below `bound`. */
  ghost predicate Boundary(sorted: seq<nat>, n: nat, bound: nat) {
    && n <= |sorted|
    && (forall i :: 0 <= i < n ==> sorted[i] < bound)
    && (forall i :: n <= i < |sorted| ==> sorted[i] >= bound)
  }

  lemma {:induction false} BoundaryWithin(sorted: seq<nat>, n: nat, bound: nat)
    requires StrictlyIncreasing(sorted) && Boundary(sorted, n, bound)
    ensures n <= bound
  {
    if n > 0 {
      BoundaryWithin(sorted[..n - 1], n - 1, sorted[n - 1]);
    }
  }

  /** A run of equal elements loses as many of them as positions fall into it. */
  lemma {:induction false} RemoveFromRun<T>(a: seq<T>, x: T, n: nat, sorted: seq<nat>, d0: nat, d1: nat)
    requires StrictlyIncreasing(sorted)
    requires Boundary(sorted, d0, |a|) && Boundary(sorted, d1, |a| + n)
    ensures d0 <= d1 <= d0 + n
    ensures RemovePositions(a + Repeat(x, n), Elements(sorted))
         == RemovePositions(a, Elements(sorted)) + Repeat(x, n - (d1 - d0))
  {
    if n == 0 {
      BoundaryUnique(sorted, d0, d1, |a|);
      assert a + Repeat(x, 0) == a;
      assert RemovePositions(a, Elements(sorted)) + Repeat(x, 0) == RemovePositions(a, Elements(sorted));
    } else {
      var p := |a| + n - 1;
      var hit := d1 > 0 && sorted[d1 - 1] == p;
      var d := if hit then d1 - 1 else d1;
      assert Boundary(sorted, d, p);
      RemoveFromRun(a, x, n - 1, sorted, d0, d);
      PositionHit(sorted, d1, p);
      var whole := a + Repeat(x, n);
      assert whole[..|whole| - 1] == a + Repeat(x, n - 1) && whole[|whole| - 1] == x;
      assert Repeat(x, n - (d1 - d0)) == Repeat(x, n - 1 - (d - d0)) + if hit then [] else [x];
    }
  }

  lemma BoundaryUnique(sorted: seq<nat>, d0: nat, d1: nat, bound: nat)
    requires Boundary(sorted, d0, bound) && Boundary(sorted, d1, bound)
    ensures d0 == d1
  {
    assert d0 < |sorted| ==> sorted[d0] >= bound;
    assert d1 < |sorted| ==> sorted[d1] >= bound;
  }

  lemma PositionHit(sorted: seq<nat>, d: nat, p: nat)
    requires StrictlyIncreasing(sorted) && Boundary(sorted, d, p + 1)
    ensures p in Elements(sorted) <==> d > 0 && sorted[d - 1] == p
  {
    if p in Elements(sorted) {
      var i :| 0 <= i < |sorted| && sorted[i] == p;
      assert i < d;
      assert sorted[i] <= sorted[d - 1];
    }
  }

  // ---------- The vector ----------

  class RepeatVec<T> {
    var items: seq<Run<T>>
    var len: nat

    ghost predicate Valid()
      reads this
    {
      WellFormedRuns(items, len)
    }

    ghost function Contents(): seq<T>
      requires Valid()
      reads this
    {
      Expand(items, len)
    }

    constructor ()
      ensures Valid() && Contents() == []
    {
      items := [];
      len := 0;
    }

    /** `extend`: zero copies leave no trace. */
    method Extend(item: T, size: nat)
      requires Valid()
      modifies this
      ensures Valid() && Contents() == old(Contents()) + Repeat(item, size)
    {
      if size > 0 {
        ExpandAppend(items, len, item, size);
        items := items + [Run(len, item)];
        len := len + size;
      }
    }

    /** The search for a start: the position of the run that begins at `at`, or the first
        run that begins after it. */
    method BinarySearch(at: nat) returns (found: bool, position: nat)
      requires Valid()
      ensures found ==> position < |items| && items[position].start == at
      ensures !found ==> position <= |items|
      ensures !found ==> forall j :: 0 <= j < |items| ==> if j < position then items[j].start < at else items[j].start > at
    {
      var low, high := 0, |items|;
      while low < high
        invariant 0 <= low <= high <= |items|
        invariant forall j :: 0 <= j < low ==> items[j].start < at
        invariant forall j :: high <= j < |items| ==> items[j].start > at
      {
        var mid := (low + high) / 2;
        if items[mid].start == at {
          return true, mid;
        } else if items[mid].start < at {
          low := mid + 1;
        } else {
          high := mid;
        }
      }
      return false, low;
    }

    /** The run that a logical index falls into. */
    method FindRun(at: nat) returns (j: nat)
      requires Valid() && at < len
      ensures j < |items| && items[j].start <= at < RunEnd(items, len, j + 1)
    {
      var found, position := BinarySearch(at);
      j := if found then position else position - 1;
    }

    /** `get`: the element at a logical index, and which copy of it. */
    method Get(at: nat) returns (r: Option<(T, nat)>)
      requires Valid()
      ensures r.Some? <==> at < len
      ensures r.Some? ==> r.value.0 == Contents()[at] && IsCopy(items, len, at, r.value)
    {
      if at >= len {
        return None;
      }
      var j := FindRun(at);
      ExpandInRun(items, len, j, at);
      return Some((items[j].elem, at - items[j].start));
    }

    /** `remove_all`: any list of positions, in any order, repeated or out of range. */
    method RemoveAll(logicalIndexes: seq<nat>)
      requires Valid()
      modifies this
      ensures Valid() && Contents() == RemovePositions(old(Contents()), Elements(logicalIndexes))
    {
      var sorted := AscendingOf(set i | i in logicalIndexes);
      assert Elements(sorted) == Elements(logicalIndexes);
      RemoveAllImpl(sorted);
    }

    /** `remove`. */
    method Remove(index: nat)
      requires Valid()
      modifies this
      ensures Valid() && Contents() == RemoveAt(old(Contents()), index)
    {
      ghost var before := Contents();
      RemoveAll([index]);
      assert Elements([index]) == {} + {index};
      RemoveHighestFirst(before, {}, index);
      RemoveNothing(RemoveAt(before, index), {});
    }

    /** `remove_all_impl`: one pass over the runs from the first affected one. */
    method RemoveAllImpl(sorted: seq<nat>)
      requires Valid() && StrictlyIncreasing(sorted)
      modifies this
      ensures Valid() && Contents() == RemovePositions(old(Contents()), Elements(sorted))
    {
      if sorted == [] || sorted[0] >= len {
        RemoveNothing(Contents(), Elements(sorted));
        return;
      }
      var firstIdx := FindRun(sorted[0]);
      var newItems, decrease := RewriteFrom(items, len, firstIdx, sorted);
      items := newItems;
      len := len - decrease;
    }

    /** `picked` are the elements at the given positions, each with its offset in its run. */
    ghost predicate AreCopies(positions: seq<nat>, picked: seq<(T, nat)>)
      requires Valid()
      reads this
    {
      && |picked| == |positions|
      && forall i :: 0 <= i < |positions| ==>
           && positions[i] < len && picked[i].0 == Contents()[positions[i]]
           && IsCopy(items, len, positions[i], picked[i])
    }

    /** Looking up positions that are all in range. */
    method GetEach(positions: seq<nat>) returns (picked: seq<(T, nat)>)
      requires Valid() && forall i :: 0 <= i < |positions| ==> positions[i] < len
      ensures AreCopies(positions, picked)
    {
      picked := [];
      for k := 0 to |positions|
        invariant AreCopies(positions[..k], picked)
      {
        var item := Get(positions[k]);
        picked := picked + [item.value];
        assert positions[..k + 1] == positions[..k] + [positions[k]];
      }
      assert positions[..|positions|] == positions;
    }

    /** `pick_uniform`: every index picked is in range, so every lookup succeeds. */
    method PickUniform(indexes: seq<PropIndex>) returns (picked: seq<(T, nat)>)
      requires Valid() && forall i :: 0 <= i < |indexes| ==> Fair(indexes[i])
      ensures |picked| == Min(|indexes|, len)
      ensures AreCopies(Ascending(SelectedSet(len, indexes, Min(|indexes|, len))), picked)
    {
      var positions := PickIdxs(len, indexes, |indexes|);
      assert forall i :: 0 <= i < |positions| ==> positions[i] in positions;
      picked := GetEach(positions);
    }
  }

  /** The runs `rewritten`, `n` elements long, hold what is left of `prefix`. */
  ghost predicate HoldsRest<T>(rewritten: seq<Run<T>>, n: nat, prefix: seq<T>, gone: set<nat>) {
    WellFormedRuns(rewritten, n) && Expand(rewritten, n) == RemovePositions(prefix, gone)
  }

  /** Taking in one more run: `longer` adds the copies of `elem` to `prefix`, and the positions
      between `before` and `after` fall among them. */
  lemma RewriteRun<T>(
    rewritten: seq<Run<T>>, prefix: seq<T>, longer: seq<T>, elem: T, sorted: seq<nat>, before: nat, after: nat)
    requires StrictlyIncreasing(sorted) && before <= |prefix| <= |longer|
    requires HoldsRest(rewritten, |prefix| - before, prefix, Elements(sorted))
    requires longer == prefix + Repeat(elem, |longer| - |prefix|)
    requires Boundary(sorted, before, |prefix|) && Boundary(sorted, after, |longer|)
    ensures after <= |longer| && |prefix| - before <= |longer| - after
    ensures |prefix| - before < |longer| - after ==>
              HoldsRest(rewritten + [Run(|prefix| - before, elem)], |longer| - after, longer, Elements(sorted))
    ensures |prefix| - before == |longer| - after ==>
              HoldsRest(rewritten, |longer| - after, longer, Elements(sorted))
  {
    RemoveFromLonger(prefix, elem, longer, sorted, before, after);
    ExtendHold(rewritten, |prefix| - before, |longer| - after, elem, prefix, longer, Elements(sorted));
  }

  lemma ExtendHold<T>(rewritten: seq<Run<T>>, n: nat, m: nat, elem: T, prefix: seq<T>, longer: seq<T>, gone: set<nat>)
    requires n <= m && HoldsRest(rewritten, n, prefix, gone)
    requires RemovePositions(longer, gone) == RemovePositions(prefix, gone) + Repeat(elem, m - n)
    ensures n < m ==> HoldsRest(rewritten + [Run(n, elem)], m, longer, gone)
    ensures n == m ==> HoldsRest(rewritten, m, longer, gone)
  {
    if n < m {
      ExpandAppend(rewritten, n, elem, m - n);
    }
  }

  lemma RemoveFromLonger<T>(a: seq<T>, x: T, longer: seq<T>, sorted: seq<nat>, d0: nat, d1: nat)
    requires StrictlyIncreasing(sorted) && d0 <= |a| <= |longer| && longer == a + Repeat(x, |longer| - |a|)
    requires Boundary(sorted, d0, |a|) && Boundary(sorted, d1, |longer|)
    ensures d1 <= |longer| && |a| - d0 <= |longer| - d1
    ensures RemovePositions(longer, Elements(sorted))
         == RemovePositions(a, Elements(sorted)) + Repeat(x, |longer| - d1 - (|a| - d0))
  {
    var n := |longer| - |a|;
    assert longer == a + Repeat(x, n);
    RemoveFromRun(a, x, n, sorted, d0, d1);
    assert n - (d1 - d0) == |longer| - d1 - (|a| - d0);
  }

  /** The inner loop: moves `from` past the positions below `bound`. */
  method CountBelow(sorted: seq<nat>, from: nat, bound: nat) returns (decrease: nat)
    requires from <= |sorted| && forall i :: 0 <= i < from ==> sorted[i] < bound
    requires StrictlyIncreasing(sorted)
    ensures from <= decrease && Boundary(sorted, decrease, bound)
  {
    decrease := from;
    while decrease < |sorted| && sorted[decrease] < bound
      invariant from <= decrease <= |sorted|
      invariant forall i :: 0 <= i < decrease ==> sorted[i] < bound
    {
      decrease := decrease + 1;
    }
  }

  /** The body of the outer loop: takes in one more run, or drops it if it loses all its copies. */
  method RewriteOne<T>(
    items: seq<Run<T>>, len: nat, current: nat, newItems: seq<Run<T>>, sorted: seq<nat>, decrease: nat)
    returns (rewritten: seq<Run<T>>, next: nat)
    requires WellFormedRuns(items, len) && StrictlyIncreasing(sorted) && current < |items|
    requires HalfDone(items, len, current, newItems, sorted, decrease)
    ensures HalfDone(items, len, current + 1, rewritten, sorted, next)
  {
    ghost var prefix := Expand(items[..current], RunEnd(items, len, current));
    var Run(currentOld, elem) := items[current];
    var currentNew: nat := currentOld - decrease;
    var nextOld := RunEnd(items, len, current + 1);
    next := CountBelow(sorted, decrease, nextOld);
    ghost var longer := PassStep(items, len, current, newItems, prefix, sorted, decrease, next, currentNew);
    var nextNew: nat := nextOld - next;
    assert nextNew >= currentNew;
    if nextNew > currentNew {
      rewritten := newItems + [Run(currentNew, elem)];
    } else {
      rewritten := newItems;
    }
    assert Midway(items, len, current + 1, rewritten, longer, sorted, next);
  }

  /** The outer loop: keeps the runs before `firstIdx` and rewrites the others, dropping those
      that lose all their copies. `decrease` is both how far positions have moved and how many
      positions have been used up. */
  method RewriteFrom<T>(items: seq<Run<T>>, len: nat, firstIdx: nat, sorted: seq<nat>)
    returns (newItems: seq<Run<T>>, decrease: nat)
    requires WellFormedRuns(items, len) && StrictlyIncreasing(sorted)
    requires firstIdx < |items| && sorted != [] && items[firstIdx].start <= sorted[0]
    ensures decrease <= len && HoldsRest(newItems, len - decrease, Expand(items, len), Elements(sorted))
  {
    ghost var prefix := PassBegins(items, len, firstIdx, sorted);
    newItems, decrease := items[..firstIdx], 0;
    for current := firstIdx to |items|
      invariant HalfDone(items, len, current, newItems, sorted, decrease)
    {
      newItems, decrease := RewriteOne(items, len, current, newItems, sorted, decrease);
    }
    prefix := Expand(items[..|items|], RunEnd(items, len, |items|));
    PassEnds(items, len, newItems, prefix, sorted, decrease);
  }

  /** The runs before `current` have been dealt with. */
  ghost predicate HalfDone<T>(
    items: seq<Run<T>>, len: nat, current: nat, newItems: seq<Run<T>>, sorted: seq<nat>, decrease: nat)
  {
    && current <= |items| && WellFormedRuns(items[..current], RunEnd(items, len, current))
    && Midway(items, len, current, newItems, Expand(items[..current], RunEnd(items, len, current)), sorted, decrease)
  }

  /** Half-way through the outer loop, with the logical content dealt with so far. */
  ghost predicate Midway<T>(
    items: seq<Run<T>>, len: nat, current: nat, newItems: seq<Run<T>>, prefix: seq<T>, sorted: seq<nat>, decrease: nat)
  {
    && current <= |items|
    && |prefix| == RunEnd(items, len, current)
    && IsPrefix(items, len, current, prefix)
    && Boundary(sorted, decrease, |prefix|) && decrease <= |prefix|
    && HoldsRest(newItems, |prefix| - decrease, prefix, Elements(sorted))
  }

  lemma PassBegins<T>(items: seq<Run<T>>, len: nat, firstIdx: nat, sorted: seq<nat>) returns (prefix: seq<T>)
    requires WellFormedRuns(items, len) && StrictlyIncreasing(sorted)
    requires firstIdx < |items| && sorted != [] && items[firstIdx].start <= sorted[0]
    ensures Midway(items, len, firstIdx, items[..firstIdx], prefix, sorted, 0)
  {
    ExpandPrefix(items, len, firstIdx);
    prefix := Expand(items[..firstIdx], items[firstIdx].start);
    RemoveNothing(prefix, Elements(sorted));
  }

  lemma PassStep<T>(
    items: seq<Run<T>>, len: nat, current: nat, newItems: seq<Run<T>>, prefix: seq<T>, sorted: seq<nat>, decrease: nat,
    next: nat, currentNew: nat)
    returns (longer: seq<T>)
    requires WellFormedRuns(items, len) && StrictlyIncreasing(sorted) && current < |items|
    requires Midway(items, len, current, newItems, prefix, sorted, decrease)
    requires Boundary(sorted, next, RunEnd(items, len, current + 1))
    requires currentNew == items[current].start - decrease
    ensures currentNew <= RunEnd(items, len, current + 1) - next
    ensures currentNew < RunEnd(items, len, current + 1) - next ==>
              Midway(items, len, current + 1, newItems + [Run(currentNew, items[current].elem)], longer, sorted, next)
    ensures currentNew == RunEnd(items, len, current + 1) - next ==>
              Midway(items, len, current + 1, newItems, longer, sorted, next)
  {
    longer := PrefixStep(items, len, current, prefix);
    RewriteRun(newItems, prefix, longer, items[current].elem, sorted, decrease, next);
    if currentNew < |longer| - next {
      assert HoldsRest(newItems + [Run(currentNew, items[current].elem)], |longer| - next, longer, Elements(sorted));
    } else {
      assert HoldsRest(newItems, |longer| - next, longer, Elements(sorted));
    }
  }

  lemma PassEnds<T>(items: seq<Run<T>>, len: nat, newItems: seq<Run<T>>, prefix: seq<T>, sorted: seq<nat>, decrease: nat)
    requires WellFormedRuns(items, len) && Midway(items, len, |items|, newItems, prefix, sorted, decrease)
    ensures decrease <= len && HoldsRest(newItems, len - decrease, Expand(items, len), Elements(sorted))
  {
    assert items[..|items|] == items;
  }

  /** `prefix` is the logical content of the runs before `current`. */
  ghost predicate IsPrefix<T>(items: seq<Run<T>>, len: nat, current: nat, prefix: seq<T>)
    requires current <= |items|
  {
    WellFormedRuns(items[..current], RunEnd(items, len, current)) && prefix == Expand(items[..current], RunEnd(items, len, current))
  }

  lemma PrefixStep<T>(items: seq<Run<T>>, len: nat, current: nat, prefix: seq<T>) returns (longer: seq<T>)
    requires WellFormedRuns(items, len) && current < |items| && IsPrefix(items, len, current, prefix)
    ensures |prefix| == items[current].start < RunEnd(items, len, current + 1) == |longer|
    ensures longer == prefix + Repeat(items[current].elem, |longer| - |prefix|)
    ensures IsPrefix(items, len, current + 1, longer)
  {
    ExpandPrefix(items, len, current);
    longer := Expand(items[..current + 1], RunEnd(items, len, current + 1));
  }
}
