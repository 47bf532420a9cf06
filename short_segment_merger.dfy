/**
 * `merge_short_segment` and the end of `merge_segments`: a pass over the
 * segments that folds a segment into its predecessor while the two are close
 * in time, one of them is short, together they stay within the word budget and
 * the first has no sentence stop.
 */
module ShortSegmentMerger {
  import opened Strings
  import opened Segments
  import opened WordCounter

  /** Neighbours merge only when the pause between them is under 300 ms. */
  const MergeGap: int := 300

  /** The bound on the words of the shorter side. */
  const ShortWords: int := 5

  /** `"." in s or "?" in s or "!" in s` */
  predicate HasStop(s: string) {
    Contains(s, '.') || Contains(s, '?') || Contains(s, '!')
  }

  /**
   * The test of `merge_short_segment`: a pause under 300 ms, fewer than 5
   * words before or at most 5 after, at most `max_word_count` together, and
   * no stop in the first text.
   */
  predicate ShouldMerge(cur: Seg, next: Seg, maxWords: int) {
    var cw := WordCount(cur.text);
    var nw := WordCount(next.text);
    && Abs(next.startTime - cur.endTime) < MergeGap
    && (cw < ShortWords || nw <= ShortWords)
    && cw + nw <= maxWords
    && !HasStop(cur.text)
  }

  /** One merge: the first start, the second end, the texts joined by a space. */
  function Absorb(cur: Seg, next: Seg): Seg {
    Seg(cur.text + " " + next.text, cur.startTime, next.endTime)
  }

  /**
   * The pass from a current segment on: a merge stays on the grown segment, a
   * refusal moves on to the next one.
   */
  function Greedy(cur: Seg, rest: seq<Seg>, maxWords: int): (r: seq<Seg>)
    ensures 1 <= |r| <= 1 + |rest|
    decreases |rest|
  {
    if rest == [] then [cur]
    else if ShouldMerge(cur, rest[0], maxWords) then Greedy(Absorb(cur, rest[0]), rest[1..], maxWords)
    else [cur] + Greedy(rest[0], rest[1..], maxWords)
  }

  /** What `merge_short_segment(segments)` leaves in the list. */
  function MergeShort(segs: seq<Seg>, maxWords: int): seq<Seg> {
    if segs == [] then [] else Greedy(segs[0], segs[1..], maxWords)
  }

  /** A run of neighbours merged into one: texts space-joined, from the first start to the last end. */
  function MergeRun(run: seq<Seg>): Seg
    requires run != []
  {
    Seg(Join(" ", Texts(run)), run[0].startTime, Last(run).endTime)
  }

  /** The runs the pass merges. */
  ghost function GreedyRuns(run: seq<Seg>, rest: seq<Seg>, maxWords: int): seq<seq<Seg>>
    requires run != []
    decreases |rest|
  {
    if rest == [] then [run]
    else if ShouldMerge(MergeRun(run), rest[0], maxWords) then GreedyRuns(run + [rest[0]], rest[1..], maxWords)
    else [run] + GreedyRuns([rest[0]], rest[1..], maxWords)
  }

  ghost function Runs(segs: seq<Seg>, maxWords: int): seq<seq<Seg>> {
    if segs == [] then [] else GreedyRuns([segs[0]], segs[1..], maxWords)
  }

  /** Merging the next segment into a merged run gives the merge of the longer run; the word counts add. */
  lemma AbsorbRun(run: seq<Seg>, x: Seg)
    requires run != []
    ensures Absorb(MergeRun(run), x) == MergeRun(run + [x])
    ensures WordCount(Absorb(MergeRun(run), x).text) == WordCount(MergeRun(run).text) + WordCount(x.text)
  {
    assert Texts(run + [x]) == Texts(run) + [x.text];
    JoinAppend(" ", Texts(run), [x.text]);
    WordCountJoinSpace(MergeRun(run).text, x.text);
  }

  lemma MergeRunSingle(x: Seg)
    ensures MergeRun([x]) == x
  {
    assert Texts([x]) == [x.text];
  }

  /** The pass from a merged run corresponds to runs that cover the run and the rest. */
  predicate RunsMatch(g: seq<Seg>, rs: seq<seq<Seg>>, covered: seq<Seg>) {
    && Flatten(rs) == covered
    && |g| == |rs|
    && forall k :: 0 <= k < |rs| ==> rs[k] != [] && g[k] == MergeRun(rs[k])
  }

  lemma {:induction false} GreedyRunsSpec(run: seq<Seg>, rest: seq<Seg>, maxWords: int)
    requires run != []
    ensures RunsMatch(Greedy(MergeRun(run), rest, maxWords), GreedyRuns(run, rest, maxWords), run + rest)
    decreases |rest|, 1
  {
    if rest == [] {
      assert Flatten([run]) == run + Flatten([]);
    } else if ShouldMerge(MergeRun(run), rest[0], maxWords) {
      GreedyRunsMerge(run, rest, maxWords);
    } else {
      GreedyRunsRefuse(run, rest, maxWords);
    }
  }

  lemma {:induction false} GreedyRunsMerge(run: seq<Seg>, rest: seq<Seg>, maxWords: int)
    requires run != [] && rest != [] && ShouldMerge(MergeRun(run), rest[0], maxWords)
    ensures RunsMatch(Greedy(MergeRun(run), rest, maxWords), GreedyRuns(run, rest, maxWords), run + rest)
    decreases |rest|, 0
  {
    AbsorbRun(run, rest[0]);
    GreedyRunsSpec(run + [rest[0]], rest[1..], maxWords);
    assert run + [rest[0]] + rest[1..] == run + rest;
  }

  lemma {:induction false} GreedyRunsRefuse(run: seq<Seg>, rest: seq<Seg>, maxWords: int)
    requires run != [] && rest != [] && !ShouldMerge(MergeRun(run), rest[0], maxWords)
    ensures RunsMatch(Greedy(MergeRun(run), rest, maxWords), GreedyRuns(run, rest, maxWords), run + rest)
    decreases |rest|, 0
  {
    MergeRunSingle(rest[0]);
    GreedyRunsSpec([rest[0]], rest[1..], maxWords);
    var g' := Greedy(rest[0], rest[1..], maxWords);
    var rs' := GreedyRuns([rest[0]], rest[1..], maxWords);
    var g, rs := Greedy(MergeRun(run), rest, maxWords), GreedyRuns(run, rest, maxWords);
    assert g == [MergeRun(run)] + g' && rs == [run] + rs';
    assert Flatten(rs) == run + Flatten(rs');
    assert [rest[0]] + rest[1..] == rest;
    forall k | 0 <= k < |rs| ensures rs[k] != [] && g[k] == MergeRun(rs[k]) {
      if k > 0 {
        assert rs[k] == rs'[k - 1] && g[k] == g'[k - 1];
      }
    }
  }

  /**
   * The result corresponds, in order, to a partition of the input into
   * contiguous runs: each output segment is its run's texts joined by single
   * spaces, from the run's first start to its last end.
   */
  lemma MergeShortRuns(segs: seq<Seg>, maxWords: int)
    ensures var out, rs := MergeShort(segs, maxWords), Runs(segs, maxWords);
      && Flatten(rs) == segs
      && |out| == |rs| <= |segs|
      && forall k :: 0 <= k < |rs| ==> rs[k] != [] && out[k] == MergeRun(rs[k])
  {
    if segs != [] {
      MergeRunSingle(segs[0]);
      GreedyRunsSpec([segs[0]], segs[1..], maxWords);
      assert [segs[0]] + segs[1..] == segs;
      assert MergeShort(segs, maxWords) == Greedy(MergeRun([segs[0]]), segs[1..], maxWords);
    }
  }

  /** The first segment of the pass starts where the current one does and has at least its words. */
  lemma {:induction false} GreedyHead(cur: Seg, rest: seq<Seg>, maxWords: int)
    ensures var h := Greedy(cur, rest, maxWords)[0];
      h.startTime == cur.startTime && WordCount(h.text) >= WordCount(cur.text)
    decreases |rest|
  {
    if rest != [] && ShouldMerge(cur, rest[0], maxWords) {
      GreedyHead(Absorb(cur, rest[0]), rest[1..], maxWords);
      WordCountJoinSpace(cur.text, rest[0].text);
    }
  }

  /** A refused pair stays refused when the second segment grows by merges. */
  lemma RefusalSticks(cur: Seg, next: Seg, grown: Seg, maxWords: int)
    requires !ShouldMerge(cur, next, maxWords)
    requires grown.startTime == next.startTime && WordCount(grown.text) >= WordCount(next.text)
    ensures !ShouldMerge(cur, grown, maxWords)
  {
  }

  lemma {:induction false} GreedyStable(cur: Seg, rest: seq<Seg>, maxWords: int)
    ensures var g := Greedy(cur, rest, maxWords);
      forall k :: 0 <= k < |g| - 1 ==> !ShouldMerge(g[k], g[k + 1], maxWords)
    decreases |rest|
  {
    if rest != [] {
      if ShouldMerge(cur, rest[0], maxWords) {
        assert Greedy(cur, rest, maxWords) == Greedy(Absorb(cur, rest[0]), rest[1..], maxWords);
        GreedyStable(Absorb(cur, rest[0]), rest[1..], maxWords);
      } else {
        var g' := Greedy(rest[0], rest[1..], maxWords);
        GreedyStable(rest[0], rest[1..], maxWords);
        GreedyHead(rest[0], rest[1..], maxWords);
        RefusalSticks(cur, rest[0], g'[0], maxWords);
        var g := Greedy(cur, rest, maxWords);
        assert g == [cur] + g';
        forall k | 0 <= k < |g| - 1 ensures !ShouldMerge(g[k], g[k + 1], maxWords) {
          if k > 0 {
            assert g[k] == g'[k - 1] && g[k + 1] == g'[k];
          }
        }
      }
    }
  }

  /**
   * When the pass ends, no two neighbours pass the merge test: a refused pair
   * cannot become mergeable, since merges only grow the second segment.
   */
  lemma MergeShortStable(segs: seq<Seg>, maxWords: int)
    ensures var out := MergeShort(segs, maxWords);
      forall k :: 0 <= k < |out| - 1 ==> !ShouldMerge(out[k], out[k + 1], maxWords)
  {
    if segs != [] {
      assert MergeShort(segs, maxWords) == Greedy(segs[0], segs[1..], maxWords);
      GreedyStable(segs[0], segs[1..], maxWords);
    }
  }

  lemma {:induction false} GreedySorted(cur: Seg, rest: seq<Seg>, maxWords: int)
    requires SortedByStart([cur] + rest)
    ensures SortedByStart(Greedy(cur, rest, maxWords))
    decreases |rest|
  {
    var s := [cur] + rest;
    if rest != [] {
      SortedTail(s);
      assert s[1..] == rest;
      assert rest == [rest[0]] + rest[1..];
      SortedTail(rest);
      if ShouldMerge(cur, rest[0], maxWords) {
        var t := [Absorb(cur, rest[0])] + rest[1..];
        forall i, j | 0 <= i < j < |t| ensures t[i].startTime <= t[j].startTime {
          assert t[j] == s[j + 1];
          if i > 0 {
            assert t[i] == s[i + 1];
          } else {
            assert t[0].startTime == s[0].startTime;
          }
        }
        GreedySorted(Absorb(cur, rest[0]), rest[1..], maxWords);
      } else {
        GreedySorted(rest[0], rest[1..], maxWords);
        GreedyHead(rest[0], rest[1..], maxWords);
        assert s[0].startTime <= s[1].startTime;
        SortedCons(cur, Greedy(rest[0], rest[1..], maxWords));
      }
    }
  }

  /** Merging keeps segments sorted by start time. */
  lemma MergeShortSorted(segs: seq<Seg>, maxWords: int)
    requires SortedByStart(segs)
    ensures SortedByStart(MergeShort(segs, maxWords))
  {
    if segs != [] {
      assert segs == [segs[0]] + segs[1..];
      GreedySorted(segs[0], segs[1..], maxWords);
    }
  }

  /** The segment at `i` merges with its successor. */
  function MergeAt(s: seq<Seg>, i: int): (r: seq<Seg>)
    requires 0 <= i < |s| - 1
    ensures |r| == |s| - 1
  {
    s[..i] + [Absorb(s[i], s[i + 1])] + s[i + 2..]
  }

  lemma MergeStep(s: seq<Seg>, i: int, maxWords: int)
    requires 0 <= i < |s| - 1 && ShouldMerge(s[i], s[i + 1], maxWords)
    ensures var t := MergeAt(s, i);
      s[..i] + Greedy(s[i], s[i + 1..], maxWords) == t[..i] + Greedy(t[i], t[i + 1..], maxWords)
  {
    var t := MergeAt(s, i);
    assert t[..i] == s[..i] && t[i] == Absorb(s[i], s[i + 1]) && t[i + 1..] == s[i + 2..];
    assert s[i + 1..][0] == s[i + 1] && s[i + 1..][1..] == s[i + 2..];
  }

  lemma RefuseStep(s: seq<Seg>, i: int, maxWords: int)
    requires 0 <= i < |s| - 1 && !ShouldMerge(s[i], s[i + 1], maxWords)
    ensures s[..i] + Greedy(s[i], s[i + 1..], maxWords) == s[..i + 1] + Greedy(s[i + 1], s[i + 2..], maxWords)
  {
    assert s[i + 1..][0] == s[i + 1] && s[i + 1..][1..] == s[i + 2..];
    assert s[..i + 1] == s[..i] + [s[i]];
  }

  /** The test of one pair, computed. */
  method Mergeable(cur: Seg, next: Seg, maxWords: int) returns (merge: bool)
    ensures merge == ShouldMerge(cur, next, maxWords)
  {
    var gap := Abs(next.startTime - cur.endTime);
    var cw := CountWords(cur.text);
    var nw := CountWords(next.text);
    merge := gap < MergeGap && (cw < ShortWords || nw <= ShortWords) && cw + nw <= maxWords && !HasStop(cur.text);
  }

  /** One pass of the loop: merge the pair at the cursor, or move the cursor on. */
  method MergeOrAdvance(s: seq<Seg>, i: int, maxWords: int) returns (t: seq<Seg>, j: int)
    requires 0 <= i < |s| - 1
    ensures 0 <= j < |t| && |t| - j < |s| - i
    ensures s[..i] + Greedy(s[i], s[i + 1..], maxWords) == t[..j] + Greedy(t[j], t[j + 1..], maxWords)
  {
    var merge := Mergeable(s[i], s[i + 1], maxWords);
    if merge {
      MergeStep(s, i, maxWords);
      t, j := MergeAt(s, i), i;
    } else {
      RefuseStep(s, i, maxWords);
      t, j := s, i + 1;
    }
  }

  /** `merge_short_segment(segments)` on the list as a value: the cursor stays on a segment that has just grown. */
  method MergeShortSegments(segs: seq<Seg>, maxWords: int) returns (out: seq<Seg>)
    ensures out == MergeShort(segs, maxWords)
  {
    if segs == [] {
      return [];
    }
    var s := segs;
    var i := 0;
    while i < |s| - 1
      invariant 0 <= i < |s|
      invariant MergeShort(segs, maxWords) == s[..i] + Greedy(s[i], s[i + 1..], maxWords)
      decreases |s| - i
    {
      s, i := MergeOrAdvance(s, i, maxWords);
    }
    LastStands(s, maxWords);
    out := s;
  }

  /** At the last segment the pass has nothing left to merge. */
  lemma LastStands(s: seq<Seg>, maxWords: int)
    requires s != []
    ensures s[..|s| - 1] + Greedy(s[|s| - 1], s[|s|..], maxWords) == s
  {
    assert s == s[..|s| - 1] + [s[|s| - 1]];
  }

  /** The end of `merge_segments`: the parts' segments in one list, sorted by start time, then merged. */
  method FinishSegments(parts: seq<seq<Seg>>, maxWords: int) returns (out: seq<Seg>)
    ensures out == MergeShort(SortByStart(Flatten(parts)), maxWords)
  {
    var all: seq<Seg> := [];
    for k := 0 to |parts|
      invariant all == Flatten(parts[..k])
    {
      TakeSnoc(parts, k);
      FlattenAppend(parts[..k], parts[k]);
      all := all + parts[k];
    }
    assert parts[..|parts|] == parts;
    out := MergeShortSegments(SortByStart(all), maxWords);
  }

  /** The final segments are sorted by start time. */
  lemma FinishSorted(parts: seq<seq<Seg>>, maxWords: int)
    ensures SortedByStart(MergeShort(SortByStart(Flatten(parts)), maxWords))
  {
    MergeShortSorted(SortByStart(Flatten(parts)), maxWords);
  }
}
