/** Cutting a version range into replay tasks around ranges to skip:
    `ReplayScheduler.create_tasks` in `replay-verify/main.py`. */
module ReplayTasks {
  import opened Prelude

  /** A task covers the versions from `start` up to but not including `end`; a range to skip
      covers `end` as well. */
  datatype Range = Range(start: int, end: int)

  // ---------- The skip list ----------

  /** A stable sort by start. */
  function InsertByStart(r: Range, sorted: seq<Range>): seq<Range> {
    if sorted == [] || r.start < sorted[0].start then [r] + sorted
    else [sorted[0]] + InsertByStart(r, sorted[1..])
  }

  function SortByStart(ranges: seq<Range>): seq<Range> {
    if ranges == [] then []
    else InsertByStart(ranges[|ranges| - 1], SortByStart(ranges[..|ranges| - 1]))
  }

  function StartingAfter(ranges: seq<Range>, version: int): seq<Range> {
    if ranges == [] then []
    else (if ranges[0].start > version then [ranges[0]] else []) + StartingAfter(ranges[1..], version)
  }

  ghost predicate SortedByStart(ranges: seq<Range>) {
    forall i, j :: 0 <= i < j < |ranges| ==> ranges[i].start <= ranges[j].start
  }

  lemma {:induction false} InsertKeepsAll(r: Range, sorted: seq<Range>)
    ensures multiset(InsertByStart(r, sorted)) == multiset(sorted) + multiset{r}
  {
    if !(sorted == [] || r.start < sorted[0].start) {
      assert sorted == [sorted[0]] + sorted[1..];
      InsertKeepsAll(r, sorted[1..]);
    }
  }

  lemma {:induction false} InsertSorted(r: Range, sorted: seq<Range>)
    requires SortedByStart(sorted)
    ensures SortedByStart(InsertByStart(r, sorted))
  {
    if !(sorted == [] || r.start < sorted[0].start) {
      var rest := InsertByStart(r, sorted[1..]);
      InsertSorted(r, sorted[1..]);
      InsertKeepsAll(r, sorted[1..]);
      forall i | 0 <= i < |rest|
        ensures sorted[0].start <= rest[i].start
      {
        assert rest[i] in multiset(rest);
        assert rest[i] in sorted[1..] || rest[i] == r;
      }
    }
  }

  lemma {:induction false} SortSorts(ranges: seq<Range>)
    ensures SortedByStart(SortByStart(ranges)) && multiset(SortByStart(ranges)) == multiset(ranges)
  {
    if ranges != [] {
      var last := |ranges| - 1;
      SortSorts(ranges[..last]);
      InsertSorted(ranges[last], SortByStart(ranges[..last]));
      InsertKeepsAll(ranges[last], SortByStart(ranges[..last]));
      assert ranges == ranges[..last] + [ranges[last]];
    }
  }

  /** The ranges that begin at a given version. */
  function BeginningAt(ranges: seq<Range>, version: int): seq<Range> {
    if ranges == [] then []
    else (if ranges[0].start == version then [ranges[0]] else []) + BeginningAt(ranges[1..], version)
  }

  lemma {:induction false} BeginningAtAppend(ranges: seq<Range>, r: Range, version: int)
    ensures BeginningAt(ranges + [r], version)
         == BeginningAt(ranges, version) + if r.start == version then [r] else []
  {
    var longer, own := ranges + [r], if r.start == version then [r] else [];
    if ranges == [] {
      assert longer[1..] == [];
      assert BeginningAt(longer, version) == own + [];
    } else {
      var first := if ranges[0].start == version then [ranges[0]] else [];
      assert longer[0] == ranges[0] && longer[1..] == ranges[1..] + [r];
      BeginningAtAppend(ranges[1..], r, version);
      assert first + (BeginningAt(ranges[1..], version) + own) == (first + BeginningAt(ranges[1..], version)) + own;
    }
  }

  lemma {:induction false} NoneBeginAt(ranges: seq<Range>, version: int)
    requires forall i :: 0 <= i < |ranges| ==> ranges[i].start != version
    ensures BeginningAt(ranges, version) == []
  {
    if ranges != [] {
      NoneBeginAt(ranges[1..], version);
    }
  }

  lemma {:induction false} InsertAfterEquals(r: Range, sorted: seq<Range>, version: int)
    requires SortedByStart(sorted)
    ensures BeginningAt(InsertByStart(r, sorted), version)
         == BeginningAt(sorted, version) + if r.start == version then [r] else []
  {
    if sorted == [] || r.start < sorted[0].start {
      assert ([r] + sorted)[1..] == sorted;
      if r.start == version {
        NoneBeginAt(sorted, version);
      }
    } else {
      var rest := InsertByStart(r, sorted[1..]);
      assert ([sorted[0]] + rest)[1..] == rest;
      InsertAfterEquals(r, sorted[1..], version);
    }
  }

  lemma StableStep(init: seq<Range>, last: Range, version: int)
    requires BeginningAt(SortByStart(init), version) == BeginningAt(init, version)
    ensures BeginningAt(InsertByStart(last, SortByStart(init)), version) == BeginningAt(init + [last], version)
  {
    SortSorts(init);
    InsertAfterEquals(last, SortByStart(init), version);
    BeginningAtAppend(init, last, version);
  }

  /** The sort is stable: ranges that begin together stay in the order they were given in. */
  lemma {:induction false} SortIsStable(ranges: seq<Range>, version: int)
    ensures BeginningAt(SortByStart(ranges), version) == BeginningAt(ranges, version)
  {
    if ranges != [] {
      var init, last := ranges[..|ranges| - 1], ranges[|ranges| - 1];
      SortIsStable(init, version);
      StableStep(init, last, version);
      assert ranges == init + [last];
    }
  }

  lemma {:induction false} FilterKeepsOrder(ranges: seq<Range>, version: int)
    requires SortedByStart(ranges)
    ensures SortedByStart(StartingAfter(ranges, version))
    ensures forall r :: r in StartingAfter(ranges, version) <==> r in ranges && r.start > version
  {
    if ranges != [] {
      FilterKeepsOrder(ranges[1..], version);
      assert ranges == [ranges[0]] + ranges[1..];
      var rest := StartingAfter(ranges[1..], version);
      forall i | 0 <= i < |rest|
        ensures ranges[0].start <= rest[i].start
      {
        assert rest[i] in ranges[1..];
      }
    }
  }

  /** The ranges the loop goes around are sorted, and are exactly those that begin after the
      start version. */
  lemma RetainedSkips(ranges: seq<Range>, version: int)
    ensures var retained := StartingAfter(SortByStart(ranges), version);
            && SortedByStart(retained)
            && forall r :: r in retained <==> r in ranges && r.start > version
  {
    SortSorts(ranges);
    FilterKeepsOrder(SortByStart(ranges), version);
    forall r
      ensures r in SortByStart(ranges) <==> r in ranges
    {
      assert r in multiset(SortByStart(ranges)) <==> r in multiset(ranges);
    }
  }

  // ---------- The cutting ----------

  datatype Plan = Plan(end: int, rangeSize: int, minRangeSize: int)

  predicate InSkip(current: int, skips: seq<Range>) {
    skips != [] && skips[0].start <= current < skips[0].end
  }

  function MinInt(a: int, b: int): int {
    if a < b then a else b
  }

  function RangeEnd(plan: Plan, current: int, skips: seq<Range>): int {
    MinInt(MinInt(current + plan.rangeSize, plan.end), if skips != [] then skips[0].start else plan.end)
  }

  /** The loop gets past every skip range it meets before the end: each must end after it
      starts, and beyond the version reached by jumping over the one before it. */
  predicate Progresses(current: int, skips: seq<Range>, end: int)
    decreases |skips|
  {
    current >= end || skips == [] || skips[0].start >= end ||
    (skips[0].end > skips[0].start && skips[0].end > current && Progresses(skips[0].end + 1, skips[1..], end))
  }

  /** All pieces the loop cuts, those too short to become tasks included. */
  function Pieces(plan: Plan, current: int, skips: seq<Range>): seq<Range>
    requires plan.rangeSize >= 1 && Progresses(current, skips, plan.end)
    decreases |skips|, if current < plan.end then plan.end - current else 0
  {
    if current >= plan.end then []
    else if InSkip(current, skips) then Pieces(plan, skips[0].end + 1, skips[1..])
    else
      var rangeEnd := RangeEnd(plan, current, skips);
      [Range(current, rangeEnd)] + Pieces(plan, rangeEnd, skips)
  }

  function LongEnough(pieces: seq<Range>, minRangeSize: int): seq<Range> {
    if pieces == [] then []
    else
      var last := pieces[|pieces| - 1];
      LongEnough(pieces[..|pieces| - 1], minRangeSize) + if last.end - last.start >= minRangeSize then [last] else []
  }

  class ReplayScheduler {
    const startVersion: int
    const endVersion: int
    const rangesToSkip: seq<Range>
    const rangeSize: int
    const minRangeSize: int
    var tasks: seq<Range>

    constructor (startVersion: int, endVersion: int, rangesToSkip: seq<Range>, rangeSize: int, minRangeSize: int)
      ensures this.startVersion == startVersion && this.endVersion == endVersion && this.rangesToSkip == rangesToSkip
      ensures this.rangeSize == rangeSize && this.minRangeSize == minRangeSize && tasks == []
    {
      this.startVersion := startVersion;
      this.endVersion := endVersion;
      this.rangesToSkip := rangesToSkip;
      this.rangeSize := rangeSize;
      this.minRangeSize := minRangeSize;
      tasks := [];
    }

    ghost function ThePlan(): Plan {
      Plan(endVersion, rangeSize, minRangeSize)
    }

    /** The ranges the loop goes around: those that begin after the start version. */
    function Skips(): seq<Range> {
      StartingAfter(SortByStart(rangesToSkip), startVersion)
    }

    /** The loop of `create_tasks`. */
    method AppendTasks()
      requires rangeSize >= 1 && Progresses(startVersion, Skips(), endVersion)
      modifies this`tasks
      ensures tasks == old(tasks) + LongEnough(Pieces(ThePlan(), startVersion, Skips()), minRangeSize)
    {
      var current, skips := startVersion, Skips();
      ghost var plan, pieces, all := ThePlan(), [], Pieces(ThePlan(), startVersion, skips);
      while current < endVersion
        invariant Progresses(current, skips, endVersion)
        invariant all == pieces + Pieces(plan, current, skips)
        invariant tasks == old(tasks) + LongEnough(pieces, minRangeSize)
        decreases |skips|, endVersion - current
      {
        PiecesSkipAhead(plan, current, skips);
        current, skips := PopSkips(current, skips);
        var rangeEnd := MinInt(MinInt(current + rangeSize, endVersion), if skips != [] then skips[0].start else endVersion);
        if current < rangeEnd {
          LongEnoughAppend(pieces, Range(current, rangeEnd), minRangeSize);
          PiecesStep(plan, current, skips, rangeEnd, pieces);
          pieces := pieces + [Range(current, rangeEnd)];
          if rangeEnd - current >= minRangeSize {
            tasks := tasks + [Range(current, rangeEnd)];
          }
          current := rangeEnd;
        }
      }
      assert pieces + [] == pieces;
    }

    /** `create_tasks`: what is appended is told from the fields alone. */
    method CreateTasks()
      requires rangeSize >= 1 && Progresses(startVersion, Skips(), endVersion)
      modifies this`tasks
      ensures tasks == old(tasks) + LongEnough(Pieces(ThePlan(), startVersion, Skips()), minRangeSize)
      ensures AsPlanned(rangesToSkip, startVersion, Plan(endVersion, rangeSize, minRangeSize), tasks[|old(tasks)|..])
    {
      AppendTasks();
      TasksAreAsPlanned(ThePlan(), startVersion, rangesToSkip);
      assert tasks[|old(tasks)|..] == LongEnough(Pieces(ThePlan(), startVersion, Skips()), minRangeSize);
    }
  }

  datatype LoopState = LoopState(current: int, skips: seq<Range>)

  /** Jumping over the skip ranges that hold the current version. */
  function SkipAhead(st: LoopState): LoopState
    decreases |st.skips|
  {
    if InSkip(st.current, st.skips) then SkipAhead(LoopState(st.skips[0].end + 1, st.skips[1..])) else st
  }

  /** The inner loop. */
  method PopSkips(current: int, skips: seq<Range>) returns (ahead: int, rest: seq<Range>)
    ensures LoopState(ahead, rest) == SkipAhead(LoopState(current, skips))
  {
    ahead, rest := current, skips;
    while rest != [] && rest[0].start <= ahead < rest[0].end
      invariant SkipAhead(LoopState(ahead, rest)) == SkipAhead(LoopState(current, skips))
      decreases |rest|
    {
      ahead, rest := rest[0].end + 1, rest[1..];
    }
  }

  lemma {:induction false} PiecesSkipAhead(plan: Plan, current: int, skips: seq<Range>)
    requires plan.rangeSize >= 1 && Progresses(current, skips, plan.end)
    ensures var ahead := SkipAhead(LoopState(current, skips));
            && Progresses(ahead.current, ahead.skips, plan.end)
            && Pieces(plan, ahead.current, ahead.skips) == Pieces(plan, current, skips)
            && !InSkip(ahead.current, ahead.skips)
            && (ahead == LoopState(current, skips) || |ahead.skips| < |skips|)
    decreases |skips|
  {
    SkipAheadKeepsProgress(LoopState(current, skips), plan.end);
    if InSkip(current, skips) && current < plan.end {
      PiecesSkipAhead(plan, skips[0].end + 1, skips[1..]);
    }
  }

  lemma PiecesStep(plan: Plan, current: int, skips: seq<Range>, rangeEnd: int, pieces: seq<Range>)
    requires plan.rangeSize >= 1 && Progresses(current, skips, plan.end)
    requires current < rangeEnd == RangeEnd(plan, current, skips)
    ensures Progresses(rangeEnd, skips, plan.end)
    ensures pieces + Pieces(plan, current, skips) == pieces + [Range(current, rangeEnd)] + Pieces(plan, rangeEnd, skips)
  {
  }

  lemma LongEnoughAppend(pieces: seq<Range>, piece: Range, minRangeSize: int)
    ensures LongEnough(pieces + [piece], minRangeSize)
         == LongEnough(pieces, minRangeSize) + if piece.end - piece.start >= minRangeSize then [piece] else []
  {
    assert (pieces + [piece])[..|pieces|] == pieces;
  }

  // ---------- What the cutting guarantees ----------

  predicate Covers(r: Range, version: int) {
    r.start <= version < r.end
  }

  /** Skip ranges include their end. */
  predicate Skipped(r: Range, version: int) {
    r.start <= version <= r.end
  }

  ghost predicate InPiece(pieces: seq<Range>, version: int) {
    exists p :: p in pieces && Covers(p, version)
  }

  ghost predicate InSkipRange(skips: seq<Range>, version: int) {
    exists r :: r in skips && Skipped(r, version)
  }

  /** The pieces are in order, disjoint, inside the range, no longer than a task may be, and a
      shorter piece stops at the end or right before a range to skip. */
  ghost predicate WellCut(plan: Plan, current: int, skips: seq<Range>, pieces: seq<Range>) {
    && (forall i :: 0 <= i < |pieces| ==>
          && current <= pieces[i].start < pieces[i].end <= plan.end
          && pieces[i].end - pieces[i].start <= plan.rangeSize
          && (pieces[i].end - pieces[i].start == plan.rangeSize || pieces[i].end == plan.end
              || exists r :: r in skips && r.start == pieces[i].end))
    && InOrder(pieces)
  }

  lemma {:induction false} PiecesAreWellCut(plan: Plan, current: int, skips: seq<Range>)
    requires plan.rangeSize >= 1 && Progresses(current, skips, plan.end)
    ensures WellCut(plan, current, skips, Pieces(plan, current, skips))
    decreases |skips|, if current < plan.end then plan.end - current else 0
  {
    if current < plan.end {
      if InSkip(current, skips) {
        PiecesAreWellCut(plan, skips[0].end + 1, skips[1..]);
        assert forall r :: r in skips[1..] ==> r in skips;
      } else {
        var rangeEnd := RangeEnd(plan, current, skips);
        PiecesAreWellCut(plan, rangeEnd, skips);
        WellCutLonger(plan, current, skips, rangeEnd, Pieces(plan, rangeEnd, skips));
      }
    }
  }

  lemma WellCutLonger(plan: Plan, current: int, skips: seq<Range>, rangeEnd: int, rest: seq<Range>)
    requires current < rangeEnd == RangeEnd(plan, current, skips)
    requires WellCut(plan, rangeEnd, skips, rest)
    ensures WellCut(plan, current, skips, [Range(current, rangeEnd)] + rest)
  {
    assert skips != [] ==> skips[0] in skips;
  }

  /** A version in range is in a piece exactly when it is in no range to skip. */
  lemma {:induction false} PiecesAvoidSkips(plan: Plan, current: int, skips: seq<Range>, version: int)
    requires plan.rangeSize >= 1 && Progresses(current, skips, plan.end) && SortedByStart(skips)
    requires current <= version < plan.end
    ensures InPiece(Pieces(plan, current, skips), version) <==> !InSkipRange(skips, version)
    decreases |skips|, plan.end - current
  {
    if InSkip(current, skips) {
      AvoidInSkip(plan, current, skips, version);
    } else {
      AvoidInPiece(plan, current, skips, version);
    }
  }

  lemma {:induction false} AvoidInSkip(plan: Plan, current: int, skips: seq<Range>, version: int)
    requires plan.rangeSize >= 1 && Progresses(current, skips, plan.end) && SortedByStart(skips)
    requires current <= version < plan.end && InSkip(current, skips)
    ensures InPiece(Pieces(plan, current, skips), version) <==> !InSkipRange(skips, version)
    decreases |skips|, plan.end - current, 0
  {
    var next, rest := skips[0].end + 1, skips[1..];
    assert skips == [skips[0]] + rest;
    if version < next {
      assert skips[0] in skips && Skipped(skips[0], version);
      PiecesAreWellCut(plan, next, rest);
    } else {
      PiecesAvoidSkips(plan, next, rest, version);
    }
  }

  lemma {:induction false} AvoidInPiece(plan: Plan, current: int, skips: seq<Range>, version: int)
    requires plan.rangeSize >= 1 && Progresses(current, skips, plan.end) && SortedByStart(skips)
    requires current <= version < plan.end && !InSkip(current, skips)
    ensures InPiece(Pieces(plan, current, skips), version) <==> !InSkipRange(skips, version)
    decreases |skips|, plan.end - current, 0
  {
    var rangeEnd := RangeEnd(plan, current, skips);
    var piece, rest := Range(current, rangeEnd), Pieces(plan, rangeEnd, skips);
    assert Pieces(plan, current, skips) == [piece] + rest;
    if version < rangeEnd {
      assert piece in [piece] + rest && Covers(piece, version);
      forall r | r in skips
        ensures !Skipped(r, version)
      {
        var i :| 0 <= i < |skips| && skips[i] == r;
        assert skips[0].start <= skips[i].start;
      }
    } else {
      PiecesAvoidSkips(plan, rangeEnd, skips, version);
    }
  }

  /** The tasks are the pieces long enough; what is dropped is shorter than the minimum. */
  lemma {:induction false} TasksAreLongPieces(pieces: seq<Range>, minRangeSize: int)
    ensures forall p :: p in LongEnough(pieces, minRangeSize) <==> p in pieces && p.end - p.start >= minRangeSize
  {
    if pieces != [] {
      var last := |pieces| - 1;
      TasksAreLongPieces(pieces[..last], minRangeSize);
      assert pieces == pieces[..last] + [pieces[last]];
    }
  }

  ghost predicate InOrder(ranges: seq<Range>) {
    forall i, j :: 0 <= i < j < |ranges| ==> ranges[i].end <= ranges[j].start
  }

  lemma {:induction false} TasksInOrder(pieces: seq<Range>, minRangeSize: int)
    requires InOrder(pieces)
    ensures InOrder(LongEnough(pieces, minRangeSize))
  {
    if pieces != [] {
      var last := |pieces| - 1;
      TasksInOrder(pieces[..last], minRangeSize);
      TasksAreLongPieces(pieces[..last], minRangeSize);
      var earlier := LongEnough(pieces[..last], minRangeSize);
      forall i | 0 <= i < |earlier|
        ensures earlier[i].end <= pieces[last].start
      {
        assert earlier[i] in pieces[..last];
        var k :| 0 <= k < last && pieces[k] == earlier[i];
        assert pieces[k].end <= pieces[last].start;
      }
      assert InOrder(earlier + [pieces[last]]);
    }
  }

  /** What `create_tasks` promises: the tasks are in order and disjoint, inside the range, of
      allowed size, clear of every range to skip including its end; and every other version is
      in a task or in a dropped piece shorter than the minimum. */
  ghost predicate CoverTheRest(plan: Plan, start: int, skips: seq<Range>, pieces: seq<Range>, tasks: seq<Range>) {
    && InOrder(tasks)
    && (forall t :: t in tasks ==>
          start <= t.start < t.end <= plan.end && plan.minRangeSize <= t.end - t.start <= plan.rangeSize)
    && (forall version :: InPiece(tasks, version) ==> !InSkipRange(skips, version))
    && (forall version :: start <= version < plan.end && !InSkipRange(skips, version) ==>
          InPiece(tasks, version) || InShortPiece(pieces, plan.minRangeSize, version))
  }

  ghost predicate InShortPiece(pieces: seq<Range>, minRangeSize: int, version: int) {
    exists p :: p in pieces && Covers(p, version) && p.end - p.start < minRangeSize
  }

  lemma TasksCoverTheRest(plan: Plan, start: int, skips: seq<Range>)
    requires plan.rangeSize >= 1 && Progresses(start, skips, plan.end) && SortedByStart(skips)
    ensures var pieces := Pieces(plan, start, skips);
            CoverTheRest(plan, start, skips, pieces, LongEnough(pieces, plan.minRangeSize))
  {
    var pieces := Pieces(plan, start, skips);
    var tasks := LongEnough(pieces, plan.minRangeSize);
    PiecesAreWellCut(plan, start, skips);
    TasksAreLongPieces(pieces, plan.minRangeSize);
    TasksInOrder(pieces, plan.minRangeSize);
    forall version | InPiece(tasks, version)
      ensures !InSkipRange(skips, version)
    {
      var t :| t in tasks && Covers(t, version);
      assert t in pieces;
      PiecesAvoidSkips(plan, start, skips, version);
    }
    forall version | start <= version < plan.end && !InSkipRange(skips, version)
      ensures InPiece(tasks, version) || InShortPiece(pieces, plan.minRangeSize, version)
    {
      PiecesAvoidSkips(plan, start, skips, version);
      var p :| p in pieces && Covers(p, version);
      assert p in tasks || p.end - p.start < plan.minRangeSize;
    }
  }

  // ---------- Which versions a task covers ----------

  /** Where the stretch between skip ranges that holds `version` begins, and where it ends. */
  function GapStart(current: int, skips: seq<Range>, version: int): int
    decreases |skips|
  {
    if skips != [] && skips[0].start <= version then GapStart(skips[0].end + 1, skips[1..], version) else current
  }

  function GapEnd(end: int, skips: seq<Range>, version: int): int {
    if skips == [] then end
    else if skips[0].start <= version then GapEnd(end, skips[1..], version)
    else MinInt(skips[0].start, end)
  }

  /** How long the piece around a version is: the stretch is cut into equal pieces from its
      beginning, and the last one is what remains. */
  function PieceSizeAt(plan: Plan, current: int, skips: seq<Range>, version: int): int
    requires plan.rangeSize >= 1
  {
    var start := version - (version - GapStart(current, skips, version)) % plan.rangeSize;
    MinInt(start + plan.rangeSize, GapEnd(plan.end, skips, version)) - start
  }

  ghost predicate InPieceOfSize(pieces: seq<Range>, version: int, size: int) {
    exists p :: p in pieces && Covers(p, version) && p.end - p.start == size
  }

  lemma ShiftByOne(n: int, d: int)
    requires d >= 1
    ensures (n - d) % d == n % d
  {
    var q, r := n / d, n % d;
    assert n == q * d + r;
    assert n - d == (q - 1) * d + r;
    UniqueRemainder(n - d, d, q - 1, r);
  }

  lemma UniqueRemainder(n: int, d: int, q: int, r: int)
    requires d >= 1 && n == q * d + r && 0 <= r < d
    ensures n % d == r
  {
    var q', r' := n / d, n % d;
    assert (q - q') * d == r' - r;
    FarMultiple(q - q', d);
  }

  lemma FarMultiple(k: int, d: int)
    requires d >= 1
    ensures k >= 1 ==> k * d >= d
    ensures k <= -1 ==> k * d <= -d
  {
  }

  lemma {:induction false} PieceAround(plan: Plan, current: int, skips: seq<Range>, version: int)
    requires plan.rangeSize >= 1 && Progresses(current, skips, plan.end) && SortedByStart(skips)
    requires current <= version < plan.end && !InSkipRange(skips, version)
    ensures InPieceOfSize(Pieces(plan, current, skips), version, PieceSizeAt(plan, current, skips, version))
    decreases |skips|, plan.end - current
  {
    if InSkip(current, skips) {
      var rest := skips[1..];
      assert skips == [skips[0]] + rest;
      assert !Skipped(skips[0], version);
      PieceAround(plan, skips[0].end + 1, rest, version);
    } else {
      var rangeEnd := RangeEnd(plan, current, skips);
      var piece, rest := Range(current, rangeEnd), Pieces(plan, rangeEnd, skips);
      assert Pieces(plan, current, skips) == [piece] + rest;
      if version >= rangeEnd {
        PieceAround(plan, rangeEnd, skips, version);
      }
      SizeAfterPiece(plan, current, skips, version);
      LaterPiece(piece, rest, version, PieceSizeAt(plan, current, skips, version));
    }
  }

  /** Where a piece begins: it is the piece around its own versions, and later versions see no
      difference whether one starts before it or after it. */
  lemma SizeAfterPiece(plan: Plan, current: int, skips: seq<Range>, version: int)
    requires plan.rangeSize >= 1 && current <= version < plan.end
    requires current < RangeEnd(plan, current, skips)
    ensures var rangeEnd := RangeEnd(plan, current, skips);
            PieceSizeAt(plan, current, skips, version)
            == if version < rangeEnd then rangeEnd - current else PieceSizeAt(plan, rangeEnd, skips, version)
  {
    if version < RangeEnd(plan, current, skips) {
      SmallRemainder(version - current, plan.rangeSize);
    } else {
      ShiftByOne(version - current, plan.rangeSize);
    }
  }

  lemma LaterPiece(piece: Range, rest: seq<Range>, version: int, size: int)
    requires InPieceOfSize(rest, version, size) || (Covers(piece, version) && piece.end - piece.start == size)
    ensures InPieceOfSize([piece] + rest, version, size)
  {
    if InPieceOfSize(rest, version, size) {
      var p :| p in rest && Covers(p, version) && p.end - p.start == size;
      assert p in [piece] + rest;
    } else {
      assert piece in [piece] + rest;
    }
  }

  lemma SmallRemainder(n: int, d: int)
    requires 0 <= n < d
    ensures n % d == n
  {
  }

  /** A version is in a task exactly when it is in range, in no range to skip, and the piece
      around it is long enough. */
  lemma TaskCoversExactly(plan: Plan, start: int, skips: seq<Range>, version: int)
    requires plan.rangeSize >= 1 && Progresses(start, skips, plan.end) && SortedByStart(skips)
    ensures InPiece(LongEnough(Pieces(plan, start, skips), plan.minRangeSize), version) <==>
            && start <= version < plan.end
            && !InSkipRange(skips, version)
            && PieceSizeAt(plan, start, skips, version) >= plan.minRangeSize
  {
    var pieces := Pieces(plan, start, skips);
    var tasks := LongEnough(pieces, plan.minRangeSize);
    PiecesAreWellCut(plan, start, skips);
    TasksAreLongPieces(pieces, plan.minRangeSize);
    if start <= version < plan.end {
      PiecesAvoidSkips(plan, start, skips, version);
      if !InSkipRange(skips, version) {
        PieceAround(plan, start, skips, version);
        LongPieceCovers(pieces, tasks, plan.minRangeSize, version, PieceSizeAt(plan, start, skips, version));
      }
    }
  }

  lemma LongPieceCovers(pieces: seq<Range>, tasks: seq<Range>, minRangeSize: int, version: int, size: int)
    requires forall p :: p in tasks <==> p in pieces && p.end - p.start >= minRangeSize
    requires InOrder(pieces) && InPieceOfSize(pieces, version, size)
    ensures InPiece(tasks, version) <==> size >= minRangeSize
  {
    var q :| q in pieces && Covers(q, version) && q.end - q.start == size;
    var j :| 0 <= j < |pieces| && pieces[j] == q;
    if InPiece(tasks, version) {
      var p :| p in tasks && Covers(p, version);
      var i :| 0 <= i < |pieces| && pieces[i] == p;
      assert i == j;
    }
  }

  // ---------- The tasks, told from the given ranges ----------

  /** `r` is a range that is heeded, and begins at or before `version`, or after it. */
  predicate HeededBefore(start: int, r: Range, version: int) {
    start < r.start <= version
  }

  predicate HeededAfter(start: int, r: Range, version: int) {
    start < r.start && version < r.start
  }

  /** The version is in a range to skip that begins after the start version. */
  ghost predicate SkippedLater(ranges: seq<Range>, start: int, version: int) {
    exists r :: r in ranges && r.start > start && Skipped(r, version)
  }

  /** `a` is the first version after all heeded ranges that begin at or before `version`. */
  ghost predicate IsGapStart(ranges: seq<Range>, start: int, version: int, a: int) {
    && (a == start || exists r :: r in ranges && HeededBefore(start, r, version) && a == r.end + 1)
    && a >= start && forall r :: r in ranges && HeededBefore(start, r, version) ==> a >= r.end + 1
  }

  /** `b` is where the next heeded range begins, or the end. */
  ghost predicate IsGapEnd(ranges: seq<Range>, start: int, end: int, version: int, b: int) {
    && (b == end || exists r :: r in ranges && HeededAfter(start, r, version) && b == r.start)
    && b <= end && forall r :: r in ranges && HeededAfter(start, r, version) ==> b <= r.start
  }

  /** The version is not skipped, and `a` to `b` is the stretch between skip ranges around it. */
  ghost predicate IsGapAround(ranges: seq<Range>, start: int, end: int, version: int, a: int, b: int) {
    && start <= version < end && !SkippedLater(ranges, start, version)
    && IsGapStart(ranges, start, version, a) && IsGapEnd(ranges, start, end, version, b)
  }

  /** How long the piece around a version is if the stretch from `a` to `b` is cut into pieces of
      `size` from its beginning. */
  function SizeInGap(size: int, a: int, b: int, version: int): int
    requires size >= 1
  {
    var start := version - (version - a) % size;
    MinInt(start + size, b) - start
  }

  /** What `create_tasks` does, in terms of what it is given: the tasks are in order, inside the
      range and of allowed size, and a version is in one exactly when no heeded range covers it
      and the piece around it is long enough. */
  ghost predicate AsPlanned(ranges: seq<Range>, start: int, plan: Plan, tasks: seq<Range>)
    requires plan.rangeSize >= 1
  {
    && InOrder(tasks)
    && (forall t :: t in tasks ==>
          && start <= t.start < t.end <= plan.end && plan.minRangeSize <= t.end - t.start <= plan.rangeSize
          && (t.end - t.start == plan.rangeSize || t.end == plan.end
              || exists r :: r in ranges && r.start > start && r.start == t.end))
    && (forall version :: InPiece(tasks, version) ==> start <= version < plan.end && !SkippedLater(ranges, start, version))
    && (forall version, a, b :: IsGapAround(ranges, start, plan.end, version, a, b) ==>
            (InPiece(tasks, version) <==> SizeInGap(plan.rangeSize, a, b, version) >= plan.minRangeSize))
  }

  lemma {:induction false} GapStartIsLast(current: int, skips: seq<Range>, end: int, version: int)
    requires SortedByStart(skips) && Progresses(current, skips, end) && !InSkipRange(skips, version)
    requires current <= version < end
    ensures current <= GapStart(current, skips, version)
    ensures forall r :: r in skips && r.start <= version ==> GapStart(current, skips, version) >= r.end + 1
    ensures GapStart(current, skips, version) == current ||
            exists r :: r in skips && r.start <= version && GapStart(current, skips, version) == r.end + 1
    decreases |skips|
  {
    if skips != [] {
      var first, rest := skips[0], skips[1..];
      assert skips == [first] + rest && first in skips;
      if first.start <= version {
        assert !Skipped(first, version);
        GapStartIsLast(first.end + 1, rest, end, version);
      } else {
        forall r | r in skips
          ensures r.start > version
        {
          var i :| 0 <= i < |skips| && skips[i] == r;
          assert skips[0].start <= skips[i].start;
        }
      }
    }
  }

  lemma {:induction false} GapEndIsNext(end: int, skips: seq<Range>, version: int)
    requires SortedByStart(skips) && version < end
    ensures GapEnd(end, skips, version) <= end
    ensures forall r :: r in skips && r.start > version ==> GapEnd(end, skips, version) <= r.start
    ensures GapEnd(end, skips, version) == end ||
            exists r :: r in skips && r.start > version && GapEnd(end, skips, version) == r.start
  {
    if skips != [] {
      var first, rest := skips[0], skips[1..];
      assert skips == [first] + rest && first in skips;
      if first.start <= version {
        GapEndIsNext(end, rest, version);
      } else {
        forall r | r in skips
          ensures r.start >= first.start
        {
          var i :| 0 <= i < |skips| && skips[i] == r;
          assert i > 0 ==> skips[0].start <= skips[i].start;
        }
      }
    }
  }

  /** The gap around a version is what the ranges say. */
  lemma GapIsDetermined(plan: Plan, start: int, ranges: seq<Range>, version: int, a: int, b: int)
    requires Progresses(start, StartingAfter(SortByStart(ranges), start), plan.end)
    requires start <= version < plan.end && !SkippedLater(ranges, start, version)
    ensures var retained := StartingAfter(SortByStart(ranges), start);
            && !InSkipRange(retained, version)
            && (IsGapStart(ranges, start, version, a) <==> a == GapStart(start, retained, version))
            && (IsGapEnd(ranges, start, plan.end, version, b) <==> b == GapEnd(plan.end, retained, version))
  {
    var retained := StartingAfter(SortByStart(ranges), start);
    RetainedSkips(ranges, start);
    GapStartIsLast(start, retained, plan.end, version);
    GapEndIsNext(plan.end, retained, version);
  }

  lemma CoveredAsPlanned(plan: Plan, start: int, ranges: seq<Range>, version: int, a: int, b: int)
    requires plan.rangeSize >= 1 && Progresses(start, StartingAfter(SortByStart(ranges), start), plan.end)
    requires IsGapAround(ranges, start, plan.end, version, a, b)
    ensures InPiece(LongEnough(Pieces(plan, start, StartingAfter(SortByStart(ranges), start)), plan.minRangeSize), version)
       <==> SizeInGap(plan.rangeSize, a, b, version) >= plan.minRangeSize
  {
    var retained := StartingAfter(SortByStart(ranges), start);
    RetainedSkips(ranges, start);
    GapIsDetermined(plan, start, ranges, version, a, b);
    TaskCoversExactly(plan, start, retained, version);
  }

  lemma CoveredNotSkipped(plan: Plan, start: int, ranges: seq<Range>, version: int)
    requires plan.rangeSize >= 1 && Progresses(start, StartingAfter(SortByStart(ranges), start), plan.end)
    requires InPiece(LongEnough(Pieces(plan, start, StartingAfter(SortByStart(ranges), start)), plan.minRangeSize), version)
    ensures start <= version < plan.end && !SkippedLater(ranges, start, version)
  {
    RetainedSkips(ranges, start);
    TaskCoversExactly(plan, start, StartingAfter(SortByStart(ranges), start), version);
  }

  lemma TasksAreAsPlanned(plan: Plan, start: int, ranges: seq<Range>)
    requires plan.rangeSize >= 1 && Progresses(start, StartingAfter(SortByStart(ranges), start), plan.end)
    ensures AsPlanned(ranges, start, plan,
                      LongEnough(Pieces(plan, start, StartingAfter(SortByStart(ranges), start)), plan.minRangeSize))
  {
    var retained := StartingAfter(SortByStart(ranges), start);
    var tasks := LongEnough(Pieces(plan, start, retained), plan.minRangeSize);
    RetainedSkips(ranges, start);
    TasksCoverTheRest(plan, start, retained);
    PiecesAreWellCut(plan, start, retained);
    TasksAreLongPieces(Pieces(plan, start, retained), plan.minRangeSize);
    forall version | InPiece(tasks, version)
      ensures start <= version < plan.end && !SkippedLater(ranges, start, version)
    {
      CoveredNotSkipped(plan, start, ranges, version);
    }
    forall version, a, b | IsGapAround(ranges, start, plan.end, version, a, b)
      ensures InPiece(tasks, version) <==> SizeInGap(plan.rangeSize, a, b, version) >= plan.minRangeSize
    {
      CoveredAsPlanned(plan, start, ranges, version, a, b);
    }
  }

  /** Every version that is not skipped has such a gap around it. */
  lemma GapExists(plan: Plan, start: int, ranges: seq<Range>, version: int) returns (a: int, b: int)
    requires Progresses(start, StartingAfter(SortByStart(ranges), start), plan.end)
    requires start <= version < plan.end && !SkippedLater(ranges, start, version)
    ensures IsGapAround(ranges, start, plan.end, version, a, b) && a <= version < b
  {
    var retained := StartingAfter(SortByStart(ranges), start);
    a, b := GapStart(start, retained, version), GapEnd(plan.end, retained, version);
    GapIsDetermined(plan, start, ranges, version, a, b);
    RetainedSkips(ranges, start);
    assert forall r :: r in ranges && HeededBefore(start, r, version) ==> !Skipped(r, version);
  }

  // ---------- Ranges that begin early ----------

  /** No task covers a version that was to be skipped. */
  ghost predicate TasksClear(tasks: seq<Range>, ranges: seq<Range>) {
    forall version :: InPiece(tasks, version) ==> !InSkipRange(ranges, version)
  }

  /** What a range that begins at or before the start version covers of the versions in range
      is covered by ranges that begin later, or lies in pieces too short to become tasks. */
  ghost predicate EarlySkipsHarmless(plan: Plan, start: int, ranges: seq<Range>)
    requires plan.rangeSize >= 1
  {
    var retained := StartingAfter(SortByStart(ranges), start);
    forall r, version :: r in ranges && r.start <= start <= version < plan.end && Skipped(r, version) ==>
      InSkipRange(retained, version) || PieceSizeAt(plan, start, retained, version) < plan.minRangeSize
  }

  /** A range to skip that begins at or before the start version is ignored; the tasks stay
      clear of all given ranges exactly when that does no harm. */
  lemma EarlySkipsAreMissed(plan: Plan, start: int, ranges: seq<Range>)
    requires plan.rangeSize >= 1 && Progresses(start, StartingAfter(SortByStart(ranges), start), plan.end)
    ensures TasksClear(LongEnough(Pieces(plan, start, StartingAfter(SortByStart(ranges), start)), plan.minRangeSize), ranges)
       <==> EarlySkipsHarmless(plan, start, ranges)
  {
    var retained := StartingAfter(SortByStart(ranges), start);
    var tasks := LongEnough(Pieces(plan, start, retained), plan.minRangeSize);
    RetainedSkips(ranges, start);
    forall version
      ensures InPiece(tasks, version) <==>
              && start <= version < plan.end
              && !InSkipRange(retained, version)
              && PieceSizeAt(plan, start, retained, version) >= plan.minRangeSize
    {
      TaskCoversExactly(plan, start, retained, version);
    }
    if TasksClear(tasks, ranges) {
      forall r, version | r in ranges && r.start <= start <= version < plan.end && Skipped(r, version)
        ensures InSkipRange(retained, version) || PieceSizeAt(plan, start, retained, version) < plan.minRangeSize
      {
        assert InSkipRange(ranges, version);
      }
    }
    if EarlySkipsHarmless(plan, start, ranges) {
      forall version | InPiece(tasks, version)
        ensures !InSkipRange(ranges, version)
      {
        assert forall r :: r in ranges && Skipped(r, version) ==> r.start <= start;
      }
    }
  }

  /** If nothing is too short to become a task, the other ranges alone must make up for it. */
  lemma EarlySkipsMissedWithoutMinimum(plan: Plan, start: int, ranges: seq<Range>)
    requires plan.rangeSize >= 1 && Progresses(start, StartingAfter(SortByStart(ranges), start), plan.end)
    requires plan.minRangeSize <= 1
    ensures var retained := StartingAfter(SortByStart(ranges), start);
            TasksClear(LongEnough(Pieces(plan, start, retained), plan.minRangeSize), ranges) <==>
            (forall r, version :: r in ranges && r.start <= start <= version < plan.end && Skipped(r, version) ==>
               InSkipRange(retained, version))
  {
    var retained := StartingAfter(SortByStart(ranges), start);
    EarlySkipsAreMissed(plan, start, ranges);
    RetainedSkips(ranges, start);
    forall version | start <= version < plan.end && !InSkipRange(retained, version)
      ensures PieceSizeAt(plan, start, retained, version) >= plan.minRangeSize
    {
      PieceAround(plan, start, retained, version);
    }
  }

  /** Version 2 was to be skipped, and is replayed. */
  lemma EarlySkipIsReplayed()
    ensures var ranges := [Range(0, 3)];
            var retained := StartingAfter(SortByStart(ranges), 0);
            && InSkipRange(ranges, 2)
            && retained == [] && LongEnough(Pieces(Plan(10, 20, 1), 0, retained), 1) == [Range(0, 10)]
            && Covers(Range(0, 10), 2)
  {
    EarlyRangeIsDropped(Range(0, 3), 0);
    OnePiece(Plan(10, 20, 1), 0);
    LongEnoughAppend([], Range(0, 10), 1);
    assert [] + [Range(0, 10)] == [Range(0, 10)];
    assert Range(0, 3) in [Range(0, 3)] && Skipped(Range(0, 3), 2);
  }

  lemma EarlyRangeIsDropped(r: Range, version: int)
    requires r.start <= version
    ensures StartingAfter(SortByStart([r]), version) == []
  {
    assert [r][..0] == [] && [r][1..] == [];
    assert SortByStart([r]) == [r];
  }

  lemma OnePiece(plan: Plan, start: int)
    requires start < plan.end <= start + plan.rangeSize
    ensures Pieces(plan, start, []) == [Range(start, plan.end)]
  {
    assert Pieces(plan, plan.end, []) == [];
  }

  // ---------- When the loop ends ----------

  /** One turn of the outer loop, as far as it decides about ending. */
  function Turn(plan: Plan, st: LoopState): LoopState {
    var ahead := SkipAhead(st);
    var rangeEnd := RangeEnd(plan, ahead.current, ahead.skips);
    if ahead.current < rangeEnd then ahead.(current := rangeEnd) else ahead
  }

  /** The state after `n` turns; a state past the end stays as it is. */
  function Turns(plan: Plan, st: LoopState, n: nat): LoopState
    decreases n
  {
    if n == 0 || st.current >= plan.end then st else Turns(plan, Turn(plan, st), n - 1)
  }

  ghost predicate Ends(plan: Plan, st: LoopState) {
    exists n :: Turns(plan, st, n).current >= plan.end
  }

  lemma {:induction false} SkipAheadKeepsProgress(st: LoopState, end: int)
    ensures var ahead := SkipAhead(st);
            && (Progresses(ahead.current, ahead.skips, end) <==> Progresses(st.current, st.skips, end))
            && ahead.current >= st.current && |ahead.skips| <= |st.skips|
            && !InSkip(ahead.current, ahead.skips)
            && (ahead == st || |ahead.skips| < |st.skips|)
    decreases |st.skips|
  {
    if InSkip(st.current, st.skips) {
      SkipAheadKeepsProgress(LoopState(st.skips[0].end + 1, st.skips[1..]), end);
    }
  }

  lemma TurnKeepsProgress(plan: Plan, st: LoopState)
    requires plan.rangeSize >= 1 && st.current < plan.end
    ensures var next := Turn(plan, st);
            && (Progresses(next.current, next.skips, plan.end) <==> Progresses(st.current, st.skips, plan.end))
            && next.current >= st.current && |next.skips| <= |st.skips|
            && (Progresses(st.current, st.skips, plan.end) ==> next.current > st.current || |next.skips| < |st.skips|)
  {
    SkipAheadKeepsProgress(st, plan.end);
  }

  lemma {:induction false} ProgressReachesEnd(plan: Plan, st: LoopState) returns (n: nat)
    requires plan.rangeSize >= 1 && Progresses(st.current, st.skips, plan.end)
    ensures Turns(plan, st, n).current >= plan.end
    decreases |st.skips|, if st.current < plan.end then plan.end - st.current else 0
  {
    n := 0;
    if st.current < plan.end {
      TurnKeepsProgress(plan, st);
      var m := ProgressReachesEnd(plan, Turn(plan, st));
      n := m + 1;
    }
  }

  lemma {:induction false} NoProgressNeverEnds(plan: Plan, st: LoopState, n: nat)
    requires plan.rangeSize >= 1 && !Progresses(st.current, st.skips, plan.end)
    ensures Turns(plan, st, n).current < plan.end
    decreases n
  {
    if n > 0 {
      TurnKeepsProgress(plan, st);
      NoProgressNeverEnds(plan, Turn(plan, st), n - 1);
    }
  }

  /** The loop ends exactly when it progresses past the skip ranges it meets. */
  lemma EndsExactly(plan: Plan, start: int, skips: seq<Range>)
    requires plan.rangeSize >= 1
    ensures Ends(plan, LoopState(start, skips)) <==> Progresses(start, skips, plan.end)
  {
    var st := LoopState(start, skips);
    if Progresses(start, skips, plan.end) {
      var n := ProgressReachesEnd(plan, st);
    } else {
      forall n: nat
        ensures Turns(plan, st, n).current < plan.end
      {
        NoProgressNeverEnds(plan, st, n);
      }
    }
  }

  /** Disjoint non-empty skip ranges, ends included, are enough. */
  lemma {:induction false} DisjointSkipsProgress(current: int, skips: seq<Range>, end: int)
    requires forall i :: 0 <= i < |skips| ==> skips[i].start < skips[i].end
    requires forall i, j :: 0 <= i < j < |skips| ==> skips[i].end < skips[j].start
    requires skips != [] ==> current <= skips[0].start
    ensures Progresses(current, skips, end)
    decreases |skips|
  {
    if skips != [] {
      DisjointSkipsProgress(skips[0].end + 1, skips[1..], end);
    }
  }

  predicate Apart(r: Range, q: Range) {
    r.end < q.start || q.end < r.start
  }

  /** Non-empty ranges no two of which have a version in common, ends included. */
  ghost predicate Disjoint(ranges: seq<Range>) {
    && (forall i :: 0 <= i < |ranges| ==> ranges[i].start < ranges[i].end)
    && (forall i, j :: 0 <= i < j < |ranges| ==> Apart(ranges[i], ranges[j]))
  }

  lemma DisjointInFront(r: Range, rest: seq<Range>)
    requires Disjoint(rest) && r.start < r.end && forall q :: q in rest ==> Apart(q, r)
    ensures Disjoint([r] + rest)
  {
    assert forall i :: 0 <= i < |rest| ==> rest[i] in rest;
  }

  lemma {:induction false} InsertDisjoint(r: Range, sorted: seq<Range>)
    requires Disjoint(sorted) && r.start < r.end && forall q :: q in sorted ==> Apart(q, r)
    ensures Disjoint(InsertByStart(r, sorted))
  {
    if sorted == [] || r.start < sorted[0].start {
      DisjointInFront(r, sorted);
    } else {
      var rest := InsertByStart(r, sorted[1..]);
      InsertDisjoint(r, sorted[1..]);
      InsertKeepsAll(r, sorted[1..]);
      forall q | q in rest
        ensures Apart(q, sorted[0])
      {
        assert q in multiset(rest);
        assert q in sorted[1..] || q == r;
        assert sorted[0] in sorted;
      }
      DisjointInFront(sorted[0], rest);
    }
  }

  lemma {:induction false} SortDisjoint(ranges: seq<Range>)
    requires Disjoint(ranges)
    ensures Disjoint(SortByStart(ranges))
  {
    if ranges != [] {
      var last := |ranges| - 1;
      var init := ranges[..last];
      SortDisjoint(init);
      SortSorts(init);
      forall q | q in SortByStart(init)
        ensures Apart(q, ranges[last])
      {
        assert q in multiset(init);
        assert q in init;
      }
      InsertDisjoint(ranges[last], SortByStart(init));
    }
  }

  lemma {:induction false} FilterDisjoint(ranges: seq<Range>, version: int)
    requires Disjoint(ranges)
    ensures Disjoint(StartingAfter(ranges, version))
    ensures forall r :: r in StartingAfter(ranges, version) ==> r in ranges
  {
    if ranges != [] {
      FilterDisjoint(ranges[1..], version);
      assert ranges == [ranges[0]] + ranges[1..];
      var rest := StartingAfter(ranges[1..], version);
      forall i | 0 <= i < |rest|
        ensures Apart(ranges[0], rest[i])
      {
        assert rest[i] in ranges[1..];
      }
    }
  }

  /** So `create_tasks` may be called with disjoint non-empty ranges in any order, and if they
      all begin after the start version it keeps its promise for all of them. */
  lemma DisjointRangesAreServed(plan: Plan, start: int, ranges: seq<Range>)
    requires plan.rangeSize >= 1 && Disjoint(ranges)
    ensures var retained := StartingAfter(SortByStart(ranges), start);
            && Progresses(start, retained, plan.end)
            && ((forall r :: r in ranges ==> r.start > start) ==>
                  var pieces := Pieces(plan, start, retained);
                  CoverTheRest(plan, start, ranges, pieces, LongEnough(pieces, plan.minRangeSize)))
  {
    var retained := StartingAfter(SortByStart(ranges), start);
    RetainedSkips(ranges, start);
    SortDisjoint(ranges);
    FilterDisjoint(SortByStart(ranges), start);
    assert forall i :: 0 <= i < |retained| ==> retained[i] in retained;
    DisjointSkipsProgress(start, retained, plan.end);
    TasksCoverTheRest(plan, start, retained);
    if forall r :: r in ranges ==> r.start > start {
      forall version
        ensures InSkipRange(retained, version) <==> InSkipRange(ranges, version)
      {
      }
    }
  }

  /** Ranges that merely touch are not: jumping to 11 past [5, 10] lands beyond [10, 11], which
      the loop then waits for forever. */
  lemma TouchingSkipsNeverEnd()
    ensures !Ends(Plan(100, 20, 1), LoopState(0, [Range(5, 10), Range(10, 11)]))
  {
    var skips := [Range(5, 10), Range(10, 11)];
    assert skips[1..] == [Range(10, 11)];
    assert !Progresses(11, skips[1..], 100);
    assert !Progresses(0, skips, 100);
    EndsExactly(Plan(100, 20, 1), 0, skips);
  }
}
