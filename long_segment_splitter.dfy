/**
 * `split_long_segment`: a run of fragments whose joined text is over the word
 * budget is split in two at the widest pause in its middle two thirds (or in
 * the middle when all pauses are equal), moved back to the nearest fragment
 * with a sentence mark, and each half is split again.
 */
module LongSegmentSplitter {
  import opened Strings
  import opened Segments
  import opened WordCounter

  /** `sentence_end_markers` of `split_long_segment`. */
  predicate IsStopMark(c: char) {
    c == '.' || c == '!' || c == '?' || c == '。' || c == '！' || c == '？'
  }

  /** `any(marker in text for marker in sentence_end_markers)` */
  predicate HasStopMark(s: string) {
    exists i :: 0 <= i < |s| && IsStopMark(s[i])
  }

  function StrippedTexts(segs: seq<Seg>): seq<string> {
    seq(|segs|, i requires 0 <= i < |segs| => Strip(segs[i].text))
  }

  /** `' '.join(seg.text.strip() for seg in segs)` */
  function MergedText(segs: seq<Seg>): string {
    Join(" ", StrippedTexts(segs))
  }

  /** The one segment a run becomes: the stripped joined text, from the first start to the last end. */
  function Collapse(segs: seq<Seg>): Seg
    requires segs != []
  {
    Seg(Strip(MergedText(segs)), segs[0].startTime, Last(segs).endTime)
  }

  /** The base case: within the word budget, or a single fragment. */
  predicate Fits(segs: seq<Seg>, maxWords: int) {
    WordCount(MergedText(segs)) <= maxWords || |segs| == 1
  }

  /** The pause after fragment `i`: `segs[i + 1].start_time - segs[i].end_time`. */
  function PauseAfter(segs: seq<Seg>, i: int): int
    requires 0 <= i < |segs| - 1
  {
    Gap(segs[i], segs[i + 1])
  }

  /** Every pause equals the first (`abs(gap - gaps[0]) < 1e-6` on whole milliseconds). */
  predicate GapsEqual(segs: seq<Seg>)
    requires |segs| >= 2
  {
    forall i :: 0 <= i < |segs| - 1 ==> PauseAfter(segs, i) == PauseAfter(segs, 0)
  }

  /** `max(range(lo, hi), key=gap)`: the first index of the widest pause after it. */
  function WidestGap(segs: seq<Seg>, lo: int, hi: int): (r: int)
    requires 0 <= lo < hi <= |segs| - 1
    ensures lo <= r < hi
    ensures forall i :: lo <= i < hi ==> PauseAfter(segs, i) <= PauseAfter(segs, r)
    ensures forall i :: lo <= i < r ==> PauseAfter(segs, i) < PauseAfter(segs, r)
    decreases hi - lo
  {
    if lo + 1 == hi then lo
    else
      var b := WidestGap(segs, lo + 1, hi);
      if PauseAfter(segs, lo) >= PauseAfter(segs, b) then lo else b
  }

  lemma MiddleThirds(n: int)
    requires n >= 2
    ensures 0 <= n / 6 < 5 * n / 6 <= n - 1
  {
  }

  /**
   * The split point before the snap to a sentence mark, as written: the middle
   * when all pauses are equal, which for two fragments is the last one.
   */
  function MiddleAsWritten(segs: seq<Seg>): (r: int)
    requires |segs| >= 2
    ensures 0 <= r <= |segs| - 1
    ensures |segs| >= 3 ==> r <= |segs| - 2
  {
    var n := |segs|;
    MiddleThirds(n);
    if GapsEqual(segs) then n / 2 else WidestGap(segs, n / 6, 5 * n / 6)
  }

  /** The split point before the snap, with the middle kept off the last fragment. */
  function Middle(segs: seq<Seg>): (r: int)
    requires |segs| >= 2
    ensures 0 <= r <= |segs| - 2
  {
    var n := |segs|;
    MiddleThirds(n);
    if GapsEqual(segs) then Min(n / 2, n - 2) else WidestGap(segs, n / 6, 5 * n / 6)
  }

  /**
   * The backward search from `i`: the nearest fragment at or before `i` with a
   * sentence mark, or `fallback` when there is none.
   */
  function SnapBack(segs: seq<Seg>, i: int, fallback: int): (r: int)
    requires -1 <= i < |segs|
    ensures || (r == fallback && forall j :: 0 <= j <= i ==> !HasStopMark(segs[j].text))
            || (0 <= r <= i && HasStopMark(segs[r].text) && forall j :: r < j <= i ==> !HasStopMark(segs[j].text))
    decreases i + 1
  {
    if i < 0 then fallback
    else if HasStopMark(segs[i].text) then i
    else SnapBack(segs, i - 1, fallback)
  }

  function SplitPointAsWritten(segs: seq<Seg>): (r: int)
    requires |segs| >= 2
    ensures 0 <= r <= |segs| - 1
    ensures |segs| >= 3 ==> r <= |segs| - 2
  {
    var m := MiddleAsWritten(segs);
    SnapBack(segs, m, m)
  }

  /** Where the corrected split cuts: both halves keep at least one fragment. */
  function SplitPoint(segs: seq<Seg>): (r: int)
    requires |segs| >= 2
    ensures 0 <= r <= |segs| - 2
  {
    var m := Middle(segs);
    SnapBack(segs, m, m)
  }

  /**
   * A test that a run needs no further split. The splitter uses `Budget`; the
   * split is defined, and its properties proved, for any such test.
   */
  type FitTest = seq<Seg> -> bool

  function Budget(maxWords: int): FitTest {
    run => Fits(run, maxWords)
  }

  /**
   * Where a run of two or more fragments is cut: the first half ends at the
   * fragment the cut names. The splitter uses `CorrectCut` (and, as written,
   * `WrittenCut`); the split is defined for any cut strategy.
   */
  type Cut = seq<Seg> -> int

  /** The cut leaves both halves non-empty. */
  ghost predicate KeepsBoth(cut: Cut) {
    forall s: seq<Seg> {:trigger cut(s)} :: |s| >= 2 ==> 0 <= cut(s) <= |s| - 2
  }

  /** The cut leaves the first half non-empty. */
  ghost predicate KeepsFirst(cut: Cut) {
    forall s: seq<Seg> {:trigger cut(s)} :: |s| >= 2 ==> 0 <= cut(s) <= |s| - 1
  }

  /** The written cut is the corrected one wherever it leaves the second half non-empty. */
  ghost predicate AgreeBelowLast(written: Cut, cut: Cut) {
    forall s: seq<Seg> {:trigger written(s)} :: |s| >= 2 && written(s) <= |s| - 2 ==> written(s) == cut(s)
  }

  const CorrectCut: Cut := s => if |s| >= 2 then SplitPoint(s) else 0

  const WrittenCut: Cut := s => if |s| >= 2 then SplitPointAsWritten(s) else 0

  lemma CutsKeep()
    ensures KeepsBoth(CorrectCut) && KeepsFirst(WrittenCut) && AgreeBelowLast(WrittenCut, CorrectCut)
  {
    forall s: seq<Seg> | |s| >= 2 && WrittenCut(s) <= |s| - 2
      ensures WrittenCut(s) == CorrectCut(s)
    {
      SplitPointsAgree(s);
    }
  }

  /** The runs the split cuts the fragments into. */
  function SplitRuns(fits: FitTest, cut: Cut, segs: seq<Seg>): seq<seq<Seg>>
    requires KeepsBoth(cut)
    decreases |segs|
  {
    if segs == [] then []
    else if fits(segs) || |segs| == 1 then [segs]
    else
      var k := cut(segs);
      SplitRuns(fits, cut, segs[..k + 1]) + SplitRuns(fits, cut, segs[k + 1..])
  }

  predicate NonEmptyRuns(runs: seq<seq<Seg>>) {
    forall k :: 0 <= k < |runs| ==> runs[k] != []
  }

  /** `f` applied to each run in turn. */
  function MapRuns(f: seq<Seg> --> Seg, runs: seq<seq<Seg>>): (r: seq<Seg>)
    requires forall k :: 0 <= k < |runs| ==> f.requires(runs[k])
    ensures |r| == |runs|
  {
    seq(|runs|, k requires 0 <= k < |runs| => f(runs[k]))
  }

  lemma MapRunsAppend(f: seq<Seg> --> Seg, a: seq<seq<Seg>>, b: seq<seq<Seg>>)
    requires forall k :: 0 <= k < |a| ==> f.requires(a[k])
    requires forall k :: 0 <= k < |b| ==> f.requires(b[k])
    requires forall k :: 0 <= k < |a + b| ==> f.requires((a + b)[k])
    ensures MapRuns(f, a + b) == MapRuns(f, a) + MapRuns(f, b)
  {
    var l, r := MapRuns(f, a + b), MapRuns(f, a) + MapRuns(f, b);
    forall k | 0 <= k < |l| ensures l[k] == r[k] {
      if k < |a| {
        assert (a + b)[k] == a[k];
      } else {
        assert (a + b)[k] == b[k - |a|];
      }
    }
  }

  /** Each run collapsed to one segment. */
  function Collapses(runs: seq<seq<Seg>>): (r: seq<Seg>)
    requires NonEmptyRuns(runs)
    ensures |r| == |runs|
  {
    MapRuns(Collapse, runs)
  }

  /** Every run is non-empty, and passes the test or is a single fragment. */
  predicate RunsFit(fits: FitTest, runs: seq<seq<Seg>>) {
    forall k :: 0 <= k < |runs| ==> runs[k] != [] && (fits(runs[k]) || |runs[k]| == 1)
  }

  lemma RunsFitAppend(fits: FitTest, a: seq<seq<Seg>>, b: seq<seq<Seg>>)
    requires RunsFit(fits, a) && RunsFit(fits, b)
    ensures RunsFit(fits, a + b)
  {
    forall k | 0 <= k < |a + b|
      ensures (a + b)[k] != [] && (fits((a + b)[k]) || |(a + b)[k]| == 1)
    {
      if k >= |a| {
        assert (a + b)[k] == b[k - |a|];
      }
    }
  }

  /**
   * Every run of the split is non-empty and fits (passes the test, or is one
   * fragment), and the runs are the input cut into contiguous pieces, in order.
   */
  lemma {:induction false} SplitRunsPartition(fits: FitTest, cut: Cut, segs: seq<Seg>)
    requires KeepsBoth(cut)
    ensures Flatten(SplitRuns(fits, cut, segs)) == segs
    ensures RunsFit(fits, SplitRuns(fits, cut, segs))
    decreases |segs|
  {
    if segs != [] && !(fits(segs) || |segs| == 1) {
      var k := cut(segs);
      var a, b := SplitRuns(fits, cut, segs[..k + 1]), SplitRuns(fits, cut, segs[k + 1..]);
      SplitRunsPartition(fits, cut, segs[..k + 1]);
      SplitRunsPartition(fits, cut, segs[k + 1..]);
      FlattenConcat(a, b);
      SplitAt(segs, k + 1);
      RunsFitAppend(fits, a, b);
    } else if segs != [] {
      assert Flatten([segs]) == segs + Flatten([]);
    }
  }

  /** The runs `split_long_segment` cuts the fragments into, with the corrected split. */
  function Runs(segs: seq<Seg>, maxWords: int): seq<seq<Seg>> {
    CutsKeep();
    SplitRuns(Budget(maxWords), CorrectCut, segs)
  }

  /** What `split_long_segment(segs)` returns, with the corrected split. */
  function SplitLong(segs: seq<Seg>, maxWords: int): (r: seq<Seg>)
    ensures segs == [] ==> r == []
  {
    CutsKeep();
    SplitRunsPartition(Budget(maxWords), CorrectCut, segs);
    Collapses(Runs(segs, maxWords))
  }

  /**
   * The output segments correspond, in order, to a partition of the input into
   * contiguous runs that fit the word budget (or are one fragment): each is its
   * run's stripped texts space-joined, from the run's first start to its last
   * end.
   */
  lemma SplitLongSpec(segs: seq<Seg>, maxWords: int)
    ensures Flatten(Runs(segs, maxWords)) == segs
    ensures |SplitLong(segs, maxWords)| == |Runs(segs, maxWords)|
    ensures forall k :: 0 <= k < |Runs(segs, maxWords)| ==>
      && Runs(segs, maxWords)[k] != []
      && Fits(Runs(segs, maxWords)[k], maxWords)
      && SplitLong(segs, maxWords)[k] == Collapse(Runs(segs, maxWords)[k])
  {
    CutsKeep();
    var runs := Runs(segs, maxWords);
    SplitRunsPartition(Budget(maxWords), CorrectCut, segs);
    forall k | 0 <= k < |runs| ensures Fits(runs[k], maxWords) {
      assert Budget(maxWords)(runs[k]) || |runs[k]| == 1;
    }
  }

  /** A run already within the budget (or a single fragment) comes out as one segment. */
  lemma SplitLongWithin(segs: seq<Seg>, maxWords: int)
    requires segs != [] && Fits(segs, maxWords)
    ensures SplitLong(segs, maxWords) == [Collapse(segs)]
  {
    CutsKeep();
    assert Budget(maxWords)(segs);
    assert Runs(segs, maxWords) == [segs];
  }

  lemma NonEmptyAppend(a: seq<seq<Seg>>, b: seq<seq<Seg>>)
    requires NonEmptyRuns(a) && NonEmptyRuns(b)
    ensures NonEmptyRuns(a + b)
  {
    forall k | 0 <= k < |a + b| ensures (a + b)[k] != [] {
      if k >= |a| {
        assert (a + b)[k] == b[k - |a|];
      }
    }
  }

  lemma CollapsesAppend(a: seq<seq<Seg>>, b: seq<seq<Seg>>)
    requires NonEmptyRuns(a) && NonEmptyRuns(b)
    ensures NonEmptyRuns(a + b)
    ensures Collapses(a + b) == Collapses(a) + Collapses(b)
  {
    NonEmptyAppend(a, b);
    MapRunsAppend(Collapse, a, b);
  }

  // ---------------------------------------------------------------------------
  // The split as written

  /**
   * `split_long_segment` as written, with `fuel` bounding the depth of the
   * recursion: `None` when the recursion goes deeper than `fuel`.
   */
  function SplitRunsAsWritten(fits: FitTest, cut: Cut, segs: seq<Seg>, fuel: nat): Option<seq<seq<Seg>>>
    requires KeepsFirst(cut)
    decreases fuel
  {
    if fuel == 0 then None
    else if segs == [] then Some([])
    else if fits(segs) || |segs| == 1 then Some([segs])
    else
      var k := cut(segs);
      Both(SplitRunsAsWritten(fits, cut, segs[..k + 1], fuel - 1), SplitRunsAsWritten(fits, cut, segs[k + 1..], fuel - 1))
  }

  /** Both halves' runs, in order, when both recursions return. */
  function Both(a: Option<seq<seq<Seg>>>, b: Option<seq<seq<Seg>>>): Option<seq<seq<Seg>>> {
    if a.Some? && b.Some? then Some(a.value + b.value) else None
  }

  /** The two split points differ only where the written one leaves the second half empty. */
  lemma SplitPointsAgree(segs: seq<Seg>)
    requires |segs| >= 2 && SplitPointAsWritten(segs) <= |segs| - 2
    ensures SplitPointAsWritten(segs) == SplitPoint(segs)
  {
    var n := |segs|;
    if GapsEqual(segs) && n == 2 {
      assert MiddleAsWritten(segs) == 1 && Middle(segs) == 0;
      assert SnapBack(segs, 1, 1) == 0;
      assert !HasStopMark(segs[1].text);
      assert SnapBack(segs, 1, 1) == SnapBack(segs, 0, 1);
    }
  }

  /**
   * Whenever the written split returns, it returns what the corrected one
   * does, for any cut that agrees with the corrected cut where it leaves both
   * halves non-empty.
   */
  lemma {:induction false} AgreesWith(fits: FitTest, written: Cut, cut: Cut, segs: seq<Seg>, fuel: nat)
    requires KeepsFirst(written) && KeepsBoth(cut) && AgreeBelowLast(written, cut)
    ensures SplitRunsAsWritten(fits, written, segs, fuel).Some? ==>
      SplitRunsAsWritten(fits, written, segs, fuel).value == SplitRuns(fits, cut, segs)
    decreases fuel, 1
  {
    if fuel > 0 && segs != [] && !(fits(segs) || |segs| == 1) {
      AgreesWhenSplit(fits, written, cut, segs, fuel);
    }
  }

  lemma {:induction false} AgreesWhenSplit(fits: FitTest, written: Cut, cut: Cut, segs: seq<Seg>, fuel: nat)
    requires KeepsFirst(written) && KeepsBoth(cut) && AgreeBelowLast(written, cut)
    requires fuel > 0 && segs != [] && !(fits(segs) || |segs| == 1)
    ensures SplitRunsAsWritten(fits, written, segs, fuel).Some? ==>
      SplitRunsAsWritten(fits, written, segs, fuel).value == SplitRuns(fits, cut, segs)
    decreases fuel, 0
  {
    var k := written(segs);
    var a := SplitRunsAsWritten(fits, written, segs[..k + 1], fuel - 1);
    var b := SplitRunsAsWritten(fits, written, segs[k + 1..], fuel - 1);
    assert SplitRunsAsWritten(fits, written, segs, fuel) == Both(a, b);
    AgreesWith(fits, written, cut, segs[..k + 1], fuel - 1);
    AgreesWith(fits, written, cut, segs[k + 1..], fuel - 1);
    if a.Some? && b.Some? {
      HalvesJoin(fits, written, cut, segs, a.value, b.value);
    }
  }

  /** The written cut's halves, each split by the corrected split, make the corrected split of the whole. */
  lemma HalvesJoin(fits: FitTest, written: Cut, cut: Cut, segs: seq<Seg>, lo: seq<seq<Seg>>, hi: seq<seq<Seg>>)
    requires KeepsFirst(written) && KeepsBoth(cut) && AgreeBelowLast(written, cut)
    requires segs != [] && !(fits(segs) || |segs| == 1)
    requires lo == SplitRuns(fits, cut, segs[..written(segs) + 1])
    requires hi == SplitRuns(fits, cut, segs[written(segs) + 1..])
    ensures SplitRuns(fits, cut, segs) == lo + hi
  {
    var k := written(segs);
    if k <= |segs| - 2 {
      assert k == cut(segs);
    } else {
      assert segs[..k + 1] == segs && segs[k + 1..] == [];
      assert hi == [];
      assert lo + hi == lo;
    }
  }

  /** `split_long_segment` as written, as runs; `None` when it recurses deeper than `fuel`. */
  function WrittenRuns(segs: seq<Seg>, maxWords: int, fuel: nat): Option<seq<seq<Seg>>> {
    CutsKeep();
    SplitRunsAsWritten(Budget(maxWords), WrittenCut, segs, fuel)
  }

  /** Whenever `split_long_segment` as written returns, it returns the corrected split. */
  lemma AsWrittenAgrees(segs: seq<Seg>, maxWords: int, fuel: nat)
    ensures WrittenRuns(segs, maxWords, fuel).Some? ==> WrittenRuns(segs, maxWords, fuel).value == Runs(segs, maxWords)
  {
    CutsKeep();
    AgreesWith(Budget(maxWords), WrittenCut, CorrectCut, segs, fuel);
  }

  /**
   * Two fragments over the budget, unless only the first has a sentence mark,
   * split into the same two fragments and nothing: the written recursion never
   * returns, whatever its depth.
   */
  lemma AsWrittenDiverges(segs: seq<Seg>, maxWords: int, fuel: nat)
    requires |segs| == 2 && WordCount(MergedText(segs)) > maxWords
    requires !(HasStopMark(segs[0].text) && !HasStopMark(segs[1].text))
    ensures WrittenRuns(segs, maxWords, fuel) == None
  {
    CutsKeep();
    assert !Budget(maxWords)(segs);
    assert GapsEqual(segs);
    assert WrittenCut(segs) == 1;
    RepeatsForever(Budget(maxWords), WrittenCut, segs, fuel);
  }

  lemma {:induction false} RepeatsForever(fits: FitTest, cut: Cut, segs: seq<Seg>, fuel: nat)
    requires KeepsFirst(cut) && |segs| == 2 && !fits(segs) && cut(segs) == 1
    ensures SplitRunsAsWritten(fits, cut, segs, fuel) == None
    decreases fuel
  {
    if fuel > 0 {
      assert segs[..2] == segs;
      RepeatsForever(fits, cut, segs, fuel - 1);
    }
  }

  // ---------------------------------------------------------------------------
  // The split, computed

  /** The backward `for` loop over the fragments from the split point. */
  method SnapToStop(segs: seq<Seg>, split: int) returns (r: int)
    requires 0 <= split < |segs|
    ensures r == SnapBack(segs, split, split)
  {
    r := split;
    var i := split;
    while i >= 0
      invariant -1 <= i <= split
      invariant SnapBack(segs, i, split) == SnapBack(segs, split, split)
      decreases i + 1
    {
      if HasStopMark(segs[i].text) {
        r := i;
        return;
      }
      i := i - 1;
    }
  }

  /** One step of the corrected split. */
  lemma SplitLongStep(segs: seq<Seg>, maxWords: int, k: int)
    requires |segs| >= 2 && !Fits(segs, maxWords) && k == SplitPoint(segs)
    ensures SplitLong(segs, maxWords) == SplitLong(segs[..k + 1], maxWords) + SplitLong(segs[k + 1..], maxWords)
  {
    CutsKeep();
    var fits := Budget(maxWords);
    assert !fits(segs) && CorrectCut(segs) == k;
    var a, b := SplitRuns(fits, CorrectCut, segs[..k + 1]), SplitRuns(fits, CorrectCut, segs[k + 1..]);
    assert SplitRuns(fits, CorrectCut, segs) == a + b;
    SplitRunsPartition(fits, CorrectCut, segs[..k + 1]);
    SplitRunsPartition(fits, CorrectCut, segs[k + 1..]);
    CollapsesAppend(a, b);
  }

  /** The split point of a run of two or more fragments: the middle, snapped back to a sentence mark. */
  method FindSplit(segs: seq<Seg>) returns (k: int)
    requires |segs| >= 2
    ensures k == SplitPoint(segs)
  {
    k := Middle(segs);
    k := SnapToStop(segs, k);
  }

  /** `split_long_segment(segs)`, with `max_word_count` a parameter and the corrected split. */
  method SplitLongSegment(segs: seq<Seg>, maxWords: int) returns (out: seq<Seg>)
    ensures out == SplitLong(segs, maxWords)
    decreases |segs|
  {
    if segs == [] {
      return [];
    }
    var merged := MergedText(segs);
    var wc := CountWords(merged);
    if wc <= maxWords || |segs| == 1 {
      SplitLongWithin(segs, maxWords);
      return [Seg(Strip(merged), segs[0].startTime, Last(segs).endTime)];
    }
    var split := FindSplit(segs);
    var first := SplitLongSegment(segs[..split + 1], maxWords);
    var second := SplitLongSegment(segs[split + 1..], maxWords);
    SplitLongStep(segs, maxWords, split);
    out := first + second;
  }
}
