/**
 * `merge_by_time_gaps`: cuts a run of segments into groups wherever the pause
 * between neighbours is too long.
 */
module TimeGapGrouper {
  import opened Segments

  /** `MAX_GAP`: the longest pause, in milliseconds, allowed inside a group. */
  const MaxGap: int := 1500

  /** `WINDOW_SIZE` of the adaptive mode: how many recent gaps are averaged. */
  const RecentWindow: nat := 5

  /** Every pause between neighbours of `g` is at most `maxGap`. */
  predicate GapsWithin(g: seq<Seg>, maxGap: int) {
    forall i :: 0 <= i < |g| - 1 ==> Gap(g[i], g[i + 1]) <= maxGap
  }

  /** The pause from the end of `a` to the start of `b` exceeds `maxGap`. */
  predicate LongPause(a: seq<Seg>, b: seq<Seg>, maxGap: int) {
    a != [] && b != [] && Gap(Last(a), b[0]) > maxGap
  }

  /**
   * `groups` is a grouping by pauses: no group is empty, pauses inside a group
   * are at most `maxGap`, and the pause across every boundary exceeds it.
   */
  predicate IsGapGrouping(groups: seq<seq<Seg>>, maxGap: int) {
    && (forall k :: 0 <= k < |groups| ==> groups[k] != [] && GapsWithin(groups[k], maxGap))
    && (forall k :: 0 <= k < |groups| - 1 ==> LongPause(groups[k], groups[k + 1], maxGap))
  }

  /** Places `x` after a grouping: in a group of its own when `opens`, else at the end of the last group. */
  function AddSegment(g: seq<seq<Seg>>, x: Seg, opens: bool): (r: seq<seq<Seg>>)
    ensures Flatten(r) == Flatten(g) + [x]
    ensures r != [] && Last(r) != [] && Last(Last(r)) == x
  {
    if opens || g == [] then
      FlattenAppend(g, [x]);
      g + [[x]]
    else
      var h := g[..|g| - 1];
      assert g == h + [Last(g)];
      FlattenAppend(h, Last(g));
      FlattenAppend(h, Last(g) + [x]);
      h + [Last(g) + [x]]
  }

  /**
   * The default mode as a reference definition, one segment at a time: a
   * segment opens a new group exactly when the pause before it exceeds `maxGap`.
   */
  function GroupByGaps(s: seq<Seg>, maxGap: int): seq<seq<Seg>>
    decreases |s|
  {
    if s == [] then []
    else AddSegment(GroupByGaps(s[..|s| - 1], maxGap), Last(s), |s| >= 2 && Gap(s[|s| - 2], Last(s)) > maxGap)
  }

  lemma GapsWithinSnoc(g: seq<Seg>, x: Seg, maxGap: int)
    requires GapsWithin(g, maxGap)
    requires g != [] ==> Gap(Last(g), x) <= maxGap
    ensures GapsWithin(g + [x], maxGap)
  {
    assert forall i :: 0 <= i < |g| ==> (g + [x])[i] == g[i];
  }

  /** Adding a segment where the pause decides keeps a grouping by pauses. */
  lemma AddSegmentGrouping(g: seq<seq<Seg>>, x: Seg, maxGap: int, opens: bool)
    requires IsGapGrouping(g, maxGap)
    requires g != [] ==> (opens <==> Gap(Last(Last(g)), x) > maxGap)
    ensures IsGapGrouping(AddSegment(g, x, opens), maxGap)
  {
    var r := AddSegment(g, x, opens);
    if opens || g == [] {
      assert r == g + [[x]];
      assert forall k :: 0 <= k < |g| ==> r[k] == g[k];
      assert GapsWithin([x], maxGap);
    } else {
      var h := g[..|g| - 1];
      assert r == h + [Last(g) + [x]];
      GapsWithinSnoc(Last(g), x, maxGap);
      assert forall k :: 0 <= k < |g| - 1 ==> r[k] == g[k];
      assert |h| > 0 ==> LongPause(r[|h| - 1], r[|h|], maxGap) by {
        if |h| > 0 {
          assert LongPause(g[|h| - 1], g[|h|], maxGap);
          assert r[|h|][0] == g[|h|][0];
        }
      }
    }
  }

  /** The reference definition covers its input exactly, in order. */
  lemma {:induction false} GroupByGapsFlatten(s: seq<Seg>, maxGap: int)
    ensures Flatten(GroupByGaps(s, maxGap)) == s
    decreases |s|
  {
    if s != [] {
      var init := s[..|s| - 1];
      var g := GroupByGaps(init, maxGap);
      assert Flatten(g) == init by {
        GroupByGapsFlatten(init, maxGap);
      }
      assert Flatten(GroupByGaps(s, maxGap)) == Flatten(g) + [Last(s)];
      assert s == init + [Last(s)];
    }
  }

  /** The reference definition is a grouping by pauses. */
  lemma {:induction false} GroupByGapsGrouping(s: seq<Seg>, maxGap: int)
    ensures IsGapGrouping(GroupByGaps(s, maxGap), maxGap)
    decreases |s|
  {
    if s != [] {
      var init := s[..|s| - 1];
      GroupByGapsGrouping(init, maxGap);
      var g := GroupByGaps(init, maxGap);
      if g != [] {
        assert init != [];
        assert Last(Last(g)) == Last(init) == s[|s| - 2];
      }
      AddSegmentGrouping(g, Last(s), maxGap, |s| >= 2 && Gap(s[|s| - 2], Last(s)) > maxGap);
    }
  }

  /**
   * The reference definition covers its input exactly, in order, and is a
   * grouping by pauses.
   */
  lemma GroupByGapsSpec(s: seq<Seg>, maxGap: int)
    ensures Flatten(GroupByGaps(s, maxGap)) == s
    ensures IsGapGrouping(GroupByGaps(s, maxGap), maxGap)
    ensures s != [] ==> GroupByGaps(s, maxGap) != []
  {
    GroupByGapsFlatten(s, maxGap);
    GroupByGapsGrouping(s, maxGap);
  }

  /** A run with no long pause in it regroups to itself. */
  lemma GroupQuiet(s: seq<Seg>, maxGap: int)
    requires s != [] && GapsWithin(s, maxGap)
    ensures GroupByGaps(s, maxGap) == [s]
  {
    var g := GroupByGaps(s, maxGap);
    assert Flatten([s]) == s by {
      assert [s][1..] == [];
    }
    assert IsGapGrouping([s], maxGap);
    assert Flatten(g) == s && IsGapGrouping(g, maxGap) by {
      GroupByGapsSpec(s, maxGap);
    }
    GroupingUnique(g, [s], maxGap);
  }

  /**
   * A grouping by pauses is determined by the sequence it covers, so any
   * grouping by pauses of `s` is `GroupByGaps(s, maxGap)`.
   */
  lemma {:induction false} GroupingUnique(gs: seq<seq<Seg>>, hs: seq<seq<Seg>>, maxGap: int)
    requires IsGapGrouping(gs, maxGap) && IsGapGrouping(hs, maxGap)
    requires Flatten(gs) == Flatten(hs)
    ensures gs == hs
    decreases |gs|
  {
    if gs != [] && hs != [] {
      var s := Flatten(gs);
      var a, b := gs[0], hs[0];
      assert s == a + Flatten(gs[1..]) == b + Flatten(hs[1..]);
      if |a| < |b| {
        BoundaryAfter(gs, maxGap);
        assert false;
      } else if |b| < |a| {
        BoundaryAfter(hs, maxGap);
        assert false;
      }
      assert a == s[..|a|] == b;
      assert Flatten(gs[1..]) == s[|a|..] == Flatten(hs[1..]);
      assert IsGapGrouping(gs[1..], maxGap) && IsGapGrouping(hs[1..], maxGap) by {
        assert forall k :: 0 <= k < |gs| - 1 ==> gs[1..][k] == gs[k + 1];
        assert forall k :: 0 <= k < |hs| - 1 ==> hs[1..][k] == hs[k + 1];
      }
      GroupingUnique(gs[1..], hs[1..], maxGap);
    }
  }

  /** The pause right after the first group, if anything follows it, exceeds `maxGap`. */
  lemma BoundaryAfter(gs: seq<seq<Seg>>, maxGap: int)
    requires IsGapGrouping(gs, maxGap) && gs != []
    ensures |Flatten(gs)| > |gs[0]| ==> Gap(Flatten(gs)[|gs[0]| - 1], Flatten(gs)[|gs[0]|]) > maxGap
  {
    var s := Flatten(gs);
    if |s| > |gs[0]| {
      assert s == gs[0] + Flatten(gs[1..]);
      assert |gs| > 1;
      assert Flatten(gs[1..]) == gs[1] + Flatten(gs[2..]);
      assert s[|gs[0]|] == gs[1][0];
      assert LongPause(gs[0], gs[1], maxGap);
    }
  }

  /** One more segment, in the reference definition. */
  lemma GroupByGapsStep(segs: seq<Seg>, i: int, maxGap: int)
    requires 1 <= i < |segs|
    ensures GroupByGaps(segs[..i + 1], maxGap)
         == AddSegment(GroupByGaps(segs[..i], maxGap), segs[i], Gap(segs[i - 1], segs[i]) > maxGap)
  {
    var s := segs[..i + 1];
    assert s[..|s| - 1] == segs[..i];
    assert s[|s| - 2] == segs[i - 1];
  }

  /** Closing the open group keeps what the groups cover and their pause bound. */
  lemma CloseGroup(result: seq<seq<Seg>>, current: seq<Seg>, covered: seq<Seg>, maxGap: int)
    requires Flatten(result) + current == covered
    requires forall k :: 0 <= k < |result| ==> GapsWithin(result[k], maxGap)
    requires GapsWithin(current, maxGap)
    ensures Flatten(result + [current]) + [] == covered
    ensures forall k :: 0 <= k < |result + [current]| ==> GapsWithin((result + [current])[k], maxGap)
  {
    FlattenAppend(result, current);
  }

  /** Adding the next segment to the open group. */
  lemma ExtendGroup(result: seq<seq<Seg>>, current: seq<Seg>, x: Seg, covered: seq<Seg>, maxGap: int)
    requires Flatten(result) + current == covered
    requires GapsWithin(current, maxGap)
    requires current != [] ==> Gap(Last(current), x) <= maxGap
    ensures Flatten(result) + (current + [x]) == covered + [x]
    ensures GapsWithin(current + [x], maxGap)
  {
    GapsWithinSnoc(current, x, maxGap);
  }

  /** The loop of the default mode keeps the reference grouping of what it has seen. */
  lemma DefaultModeStep(segs: seq<Seg>, i: int, maxGap: int,
                        result: seq<seq<Seg>>, current: seq<Seg>,
                        result': seq<seq<Seg>>, current': seq<Seg>)
    requires 1 <= i < |segs|
    requires result + [current] == GroupByGaps(segs[..i], maxGap)
    requires Gap(segs[i - 1], segs[i]) > maxGap ==> result' == result + [current] && current' == [segs[i]]
    requires Gap(segs[i - 1], segs[i]) <= maxGap ==> result' == result && current' == current + [segs[i]]
    ensures result' + [current'] == GroupByGaps(segs[..i + 1], maxGap)
  {
    GroupByGapsStep(segs, i, maxGap);
    var g := result + [current];
    assert g[..|g| - 1] == result;
    assert Last(g) == current;
  }

  function Sum(xs: seq<int>): int {
    if xs == [] then 0 else Sum(xs[..|xs| - 1]) + Last(xs)
  }

  /**
   * The adaptive test of `merge_by_time_gaps`: record the pause among the
   * last five, and close the group when it is more than three times their
   * mean (`5 * gap > 3 * sum`, which is the source's float test for integer
   * pauses) and the group holds more than five segments; closing forgets
   * the recorded pauses.
   */
  method RecordGap(recent: seq<int>, gap: int, groupLen: int) returns (recent': seq<int>, close: bool)
    requires |recent| <= RecentWindow
    ensures |recent'| <= RecentWindow
    ensures var full := if |recent| == RecentWindow then recent[1..] + [gap] else recent + [gap];
      && (close <==> |full| == RecentWindow && 5 * gap > 3 * Sum(full) && groupLen > 5)
      && recent' == if close then [] else full
  {
    recent' := recent + [gap];
    if |recent'| > RecentWindow {
      recent' := recent'[1..];
    }
    assert |recent| == RecentWindow ==> recent' == recent[1..] + [gap];
    close := false;
    if |recent'| == RecentWindow {
      if 5 * gap > 3 * Sum(recent') && groupLen > 5 {
        close := true;
        recent' := [];
      }
    }
  }

  /**
   * The rest of one step of `merge_by_time_gaps`: close the open group when
   * the adaptive test fired, close it again before a pause over `maxGap`
   * (which emits an empty group when both fire), then add the segment.
   */
  method Advance(result: seq<seq<Seg>>, current: seq<Seg>, x: Seg, adaptive: bool, pause: bool,
                 ghost covered: seq<Seg>, ghost maxGap: int)
      returns (result': seq<seq<Seg>>, current': seq<Seg>)
    requires Flatten(result) + current == covered
    requires forall k :: 0 <= k < |result| ==> GapsWithin(result[k], maxGap)
    requires GapsWithin(current, maxGap)
    requires !pause && current != [] ==> Gap(Last(current), x) <= maxGap
    ensures current' != [] && Last(current') == x
    ensures Flatten(result') + current' == covered + [x]
    ensures forall k :: 0 <= k < |result'| ==> GapsWithin(result'[k], maxGap)
    ensures GapsWithin(current', maxGap)
    ensures !adaptive && pause ==> result' == result + [current] && current' == [x]
    ensures !adaptive && !pause ==> result' == result && current' == current + [x]
  {
    result', current' := result, current;
    if adaptive {
      CloseGroup(result', current', covered, maxGap);
      result' := result' + [current'];
      current' := [];
    }
    if pause {
      CloseGroup(result', current', covered, maxGap);
      result' := result' + [current'];
      current' := [];
    }
    ExtendGroup(result', current', x, covered, maxGap);
    current' := current' + [x];
  }

  /** What the loop of `merge_by_time_gaps` keeps after the first `i` segments. */
  ghost predicate Grouped(segs: seq<Seg>, i: int, maxGap: int, checkLargeGaps: bool,
                          result: seq<seq<Seg>>, current: seq<Seg>)
    requires 1 <= i <= |segs|
  {
    && current != [] && Last(current) == segs[i - 1]
    && Flatten(result) + current == segs[..i]
    && (forall k :: 0 <= k < |result| ==> GapsWithin(result[k], maxGap))
    && GapsWithin(current, maxGap)
    && (!checkLargeGaps ==> result + [current] == GroupByGaps(segs[..i], maxGap))
  }

  /** One step of the loop, for segment `i` after the pause test. */
  method Step(segs: seq<Seg>, i: int, ghost maxGap: int, ghost checkLargeGaps: bool,
              result: seq<seq<Seg>>, current: seq<Seg>, adaptive: bool, pause: bool)
      returns (result': seq<seq<Seg>>, current': seq<Seg>)
    requires 1 <= i < |segs|
    requires Grouped(segs, i, maxGap, checkLargeGaps, result, current)
    requires pause <==> Gap(segs[i - 1], segs[i]) > maxGap
    requires !checkLargeGaps ==> !adaptive
    ensures Grouped(segs, i + 1, maxGap, checkLargeGaps, result', current')
  {
    result', current' := Advance(result, current, segs[i], adaptive, pause, segs[..i], maxGap);
    TakeSnoc(segs, i);
    if !checkLargeGaps {
      DefaultModeStep(segs, i, maxGap, result, current, result', current');
    }
  }

  /** The loop of `merge_by_time_gaps` over a non-empty run: the closed groups and the open one. */
  method GroupRun(segs: seq<Seg>, maxGap: int, checkLargeGaps: bool) returns (result: seq<seq<Seg>>, current: seq<Seg>)
    requires segs != []
    ensures Grouped(segs, |segs|, maxGap, checkLargeGaps, result, current)
  {
    result := [];
    current := [segs[0]];
    var recent: seq<int> := [];
    assert segs[..1] == [segs[0]];
    for i := 1 to |segs|
      invariant |recent| <= RecentWindow
      invariant Grouped(segs, i, maxGap, checkLargeGaps, result, current)
    {
      var gap := segs[i].startTime - segs[i - 1].endTime;
      var adaptive := false;
      if checkLargeGaps {
        recent, adaptive := RecordGap(recent, gap, |current|);
      }
      result, current := Step(segs, i, maxGap, checkLargeGaps, result, current, adaptive, gap > maxGap);
      if gap > maxGap {
        recent := [];
      }
    }
  }

  /**
   * `merge_by_time_gaps(segments, max_gap, check_large_gaps)`. In the default
   * mode the result is the grouping by pauses; with `checkLargeGaps` a group
   * is also closed before a pause of more than three times the mean of the
   * last five, once it holds more than five segments.
   */
  method MergeByTimeGaps(segs: seq<Seg>, maxGap: int, checkLargeGaps: bool) returns (groups: seq<seq<Seg>>)
    ensures segs == [] ==> groups == []
    ensures Flatten(groups) == segs
    ensures forall k :: 0 <= k < |groups| ==> GapsWithin(groups[k], maxGap)
    ensures !checkLargeGaps ==> groups == GroupByGaps(segs, maxGap)
  {
    if segs == [] {
      return [];
    }
    var result, current := GroupRun(segs, maxGap, checkLargeGaps);
    assert segs[..|segs|] == segs;
    CloseGroup(result, current, segs, maxGap);
    groups := result + [current];
  }
}
