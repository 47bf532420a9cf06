/**
 * `merge_segments_based_on_sentences`: lines up the sentences of a text with
 * a run of timed fragments. For each sentence in turn it searches windows of
 * fragments near a cursor, accepts the first best window scoring at least
 * 0.5, emits the sentence once per pause group of that window, and moves the
 * cursor on; too many misses, or no hit at all, give back the fragments.
 */
module SentenceAligner {
  import opened Strings
  import opened Segments
  import opened WordCounter
  import opened TimeGapGrouper
  import opened WindowSearch

  /** `threshold`: the least ratio at which a window is accepted. */
  const Threshold: real := 0.5

  /** `max_shift` at the start and after a hit. */
  const ShiftAfterHit: int := 30

  /** `max_shift` after a miss. */
  const ShiftAfterMiss: int := 100

  // ---------------------------------------------------------------------------
  // The search for one sentence

  /** `window_sizes` for a sentence of `wc` words at `cursor`, over `n` fragments. */
  function SizesFor(wc: int, cursor: int, n: int): seq<int> {
    WindowSizes(Max(1, wc / 2), Min(2 * wc, n - cursor), wc)
  }

  /** Every size tried lies between `min_window_size` and `max_window_size`. */
  lemma SizesForBounds(wc: int, cursor: int, n: int)
    ensures forall i :: 0 <= i < |SizesFor(wc, cursor, n)| ==>
      Max(1, wc / 2) <= SizesFor(wc, cursor, n)[i] <= Min(2 * wc, n - cursor)
  {
    var sizes := SizesFor(wc, cursor, n);
    WindowSizesSpec(Max(1, wc / 2), Min(2 * wc, n - cursor), wc);
    forall i | 0 <= i < |sizes| ensures Max(1, wc / 2) <= sizes[i] <= Min(2 * wc, n - cursor) {
      assert sizes[i] in sizes;
    }
  }

  /** Every window tried for `sentence` at `cursor`, in the order tried. */
  function CandidatesFor(segs: seq<Seg>, sentence: string, cursor: int, shift: int): seq<Window> {
    Candidates(SizesFor(WordCount(NormalizeText(sentence)), cursor, |segs|), cursor, shift, |segs|)
  }

  lemma CandidatesForInBounds(segs: seq<Seg>, sentence: string, cursor: int, shift: int)
    requires 0 <= cursor
    ensures AllInBounds(CandidatesFor(segs, sentence, cursor, shift), |segs|)
  {
    SizesForBounds(WordCount(NormalizeText(sentence)), cursor, |segs|);
  }

  /** The ratio of the processed sentence against each window tried. */
  function ScoresFor(segs: seq<Seg>, sentence: string, ratio: Similarity, cursor: int, shift: int): (r: seq<real>)
    requires 0 <= cursor
    ensures |r| == |CandidatesFor(segs, sentence, cursor, shift)|
  {
    CandidatesForInBounds(segs, sentence, cursor, shift);
    Scores(segs, NormalizeText(sentence), ratio, CandidatesFor(segs, sentence, cursor, shift))
  }

  /**
   * What the source promises of an accepted window: it lies inside the
   * fragments, starts between the cursor and `cursor + max_shift`, has a size
   * between `max(1, wc // 2)` and `min(2 * wc, len - cursor)`, and scores at
   * least the threshold.
   */
  predicate Accepted(segs: seq<Seg>, sentence: string, ratio: Similarity, cursor: int, shift: int, w: Window) {
    var proc := NormalizeText(sentence);
    var wc := WordCount(proc);
    && InBounds(w, |segs|)
    && cursor <= w.pos <= cursor + shift
    && Max(1, wc / 2) <= w.size <= Min(2 * wc, |segs| - cursor)
    && ratio(proc, WindowText(segs, w)) >= Threshold
  }

  lemma ChosenAccepted(segs: seq<Seg>, sentence: string, ratio: Similarity, cursor: int, shift: int, i: int)
    requires 0 <= cursor
    requires 0 <= i < |CandidatesFor(segs, sentence, cursor, shift)|
    requires ScoresFor(segs, sentence, ratio, cursor, shift)[i] >= Threshold
    ensures Accepted(segs, sentence, ratio, cursor, shift, CandidatesFor(segs, sentence, cursor, shift)[i])
  {
    var wc := WordCount(NormalizeText(sentence));
    var sizes := SizesFor(wc, cursor, |segs|);
    var cands := CandidatesFor(segs, sentence, cursor, shift);
    assert cands == Flatten(Rows(sizes, cursor, shift, |segs|));
    CandidateShape(sizes, cursor, shift, |segs|, i);
    SizesForBounds(wc, cursor, |segs|);
    CandidatesForInBounds(segs, sentence, cursor, shift);
  }

  /**
   * The outcome of the search for one sentence: the first best window, if it
   * scores at least the threshold (`best_ratio >= threshold and best_pos is
   * not None`).
   */
  function Choose(segs: seq<Seg>, sentence: string, ratio: Similarity, cursor: int, shift: int): (r: Option<Window>)
    requires 0 <= cursor
    ensures r.Some? ==> Accepted(segs, sentence, ratio, cursor, shift, r.value)
  {
    var cands := CandidatesFor(segs, sentence, cursor, shift);
    var p := PickBest(ScoresFor(segs, sentence, ratio, cursor, shift));
    if p.best >= Threshold && p.index >= 0 then
      ChosenAccepted(segs, sentence, ratio, cursor, shift, p.index);
      Some(cands[p.index])
    else
      None
  }

  /**
   * A sentence is missed exactly when every window tried scores below the
   * threshold; otherwise the window taken is the first of the highest scores.
   */
  lemma ChooseSpec(segs: seq<Seg>, sentence: string, ratio: Similarity, cursor: int, shift: int)
    requires 0 <= cursor
    ensures var cands := CandidatesFor(segs, sentence, cursor, shift);
      var scores := ScoresFor(segs, sentence, ratio, cursor, shift);
      && (Choose(segs, sentence, ratio, cursor, shift) == None <==>
          forall k :: 0 <= k < |scores| ==> scores[k] < Threshold)
      && (Choose(segs, sentence, ratio, cursor, shift).Some? ==>
          exists i :: 0 <= i < |cands| && cands[i] == Choose(segs, sentence, ratio, cursor, shift).value
            && (forall k :: 0 <= k < |scores| ==> scores[k] <= scores[i])
            && (forall k :: 0 <= k < i ==> scores[k] < scores[i]))
  {
    var scores := ScoresFor(segs, sentence, ratio, cursor, shift);
    var p := PickBest(scores);
    if p.index >= 0 && p.best < Threshold {
      assert !(p.index <= |scores| - 1 && scores[p.index] >= Threshold);
    }
  }

  // ---------------------------------------------------------------------------
  // What an accepted window emits

  /** One segment per group, carrying `sentence` from the group's first start to its last end. */
  function Spans(sentence: string, groups: seq<seq<Seg>>): (out: seq<Seg>)
    requires forall k :: 0 <= k < |groups| ==> groups[k] != []
    ensures |out| == |groups|
  {
    seq(|groups|, k requires 0 <= k < |groups| => Seg(sentence, groups[k][0].startTime, Last(groups[k]).endTime))
  }

  /**
   * The segments emitted for an accepted window: one per pause group of its
   * fragments (`merge_by_time_gaps(..., MAX_GAP)`), each carrying the sentence.
   */
  function Emit(segs: seq<Seg>, sentence: string, w: Window): (out: seq<Seg>)
    requires InBounds(w, |segs|)
    ensures |out| >= 1
  {
    var groups := GroupByGaps(segs[w.pos..End(w)], MaxGap);
    GroupByGapsSpec(segs[w.pos..End(w)], MaxGap);
    Spans(sentence, groups)
  }

  /** `x` carries `sentence` and spans a sub-run `run[a..c+1]` with no pause over `MAX_GAP`. */
  predicate SpanOf(x: Seg, run: seq<Seg>, sentence: string) {
    && x.text == sentence
    && exists a, c :: 0 <= a <= c < |run|
         && x.startTime == run[a].startTime && x.endTime == run[c].endTime
         && GapsWithin(run[a..c + 1], MaxGap)
  }

  /** `x` carries `sentence` and spans a quiet sub-run of the fragments of window `w`. */
  predicate FromWindow(x: Seg, segs: seq<Seg>, sentence: string, w: Window) {
    InBounds(w, |segs|) && SpanOf(x, segs[w.pos..End(w)], sentence)
  }

  /** The spans of a grouping of `run` by pauses are quiet sub-runs, from the first start to the last end. */
  lemma SpansShape(sentence: string, run: seq<Seg>, groups: seq<seq<Seg>>)
    requires Flatten(groups) == run && IsGapGrouping(groups, MaxGap)
    ensures var out := Spans(sentence, groups);
      && (forall j :: 0 <= j < |out| ==> SpanOf(out[j], run, sentence))
      && (groups != [] ==> out[0].startTime == run[0].startTime && Last(out).endTime == Last(run).endTime)
  {
    var out := Spans(sentence, groups);
    forall j | 0 <= j < |out| ensures SpanOf(out[j], run, sentence) {
      FlattenSlice(groups, j);
      var a := Offset(groups, j);
      var c := a + |groups[j]| - 1;
      assert run[a..c + 1] == groups[j];
      assert groups[j][0] == run[a] && Last(groups[j]) == run[c];
    }
    if groups != [] {
      assert Flatten(groups) == groups[0] + Flatten(groups[1..]);
      var h := groups[..|groups| - 1];
      assert groups == h + [Last(groups)];
      FlattenAppend(h, Last(groups));
    }
  }

  /**
   * Every emitted segment carries the sentence and spans a quiet sub-run of
   * the window; together they start with the window's first fragment and end
   * with its last.
   */
  lemma EmitShape(segs: seq<Seg>, sentence: string, w: Window)
    requires InBounds(w, |segs|)
    ensures var out := Emit(segs, sentence, w);
      && (forall j :: 0 <= j < |out| ==> FromWindow(out[j], segs, sentence, w))
      && out[0].startTime == segs[w.pos].startTime
      && Last(out).endTime == segs[End(w) - 1].endTime
  {
    var run := segs[w.pos..End(w)];
    assert |run| == w.size;
    assert run[0] == segs[w.pos] && run[w.size - 1] == segs[End(w) - 1];
    var groups := GroupByGaps(run, MaxGap);
    GroupByGapsSpec(run, MaxGap);
    SpansShape(sentence, run, groups);
    assert Emit(segs, sentence, w) == Spans(sentence, groups);
  }

  // ---------------------------------------------------------------------------
  // The walk over the sentences

  /** The search for one sentence: from the sentence, the cursor and `max_shift`, the window taken, if any. */
  type Chooser = (string, int, int) -> Option<Window>

  /** A chooser only takes windows inside the `n` fragments that start at or after the cursor. */
  ghost predicate Sound(choose: Chooser, n: int) {
    forall s, c, sh :: 0 <= c && choose(s, c, sh).Some? ==>
      InBounds(choose(s, c, sh).value, n) && c <= choose(s, c, sh).value.pos
  }

  /** The aligner's own search, `Choose`, as a chooser. */
  function Searcher(segs: seq<Seg>, ratio: Similarity): Chooser {
    (s, c, sh) => if 0 <= c then Choose(segs, s, ratio, c, sh) else None
  }

  lemma SearcherSound(segs: seq<Seg>, ratio: Similarity)
    ensures Sound(Searcher(segs, ratio), |segs|)
  {
    var choose := Searcher(segs, ratio);
    forall s, c, sh | 0 <= c && choose(s, c, sh).Some?
      ensures InBounds(choose(s, c, sh).value, |segs|) && c <= choose(s, c, sh).value.pos
    {
      assert choose(s, c, sh) == Choose(segs, s, ratio, c, sh);
    }
  }

  /** One search: a hit records the window taken, a miss nothing. */
  datatype Attempt =
    | Hit(sentence: string, cursor: int, shift: int, window: Window)
    | Miss(sentence: string, cursor: int, shift: int)

  function Outcome(a: Attempt): Option<Window> {
    if a.Hit? then Some(a.window) else None
  }

  /**
   * The state of the walk: `asr_index`, `max_shift`, `unmatched_count`,
   * `new_segments`, the attempts so far, and whether the walk has given up.
   */
  datatype Run = Run(cursor: int, shift: int, misses: nat, out: seq<Seg>, trace: seq<Attempt>, aborted: bool)

  function Start(): Run {
    Run(0, ShiftAfterHit, 0, [], [], false)
  }

  /** One sentence of the walk; once it has given up, nothing changes. */
  function Next(segs: seq<Seg>, choose: Chooser, maxUnmatched: int, st: Run, sentence: string): (r: Run)
    requires segs != [] && Sound(choose, |segs|) && 0 <= st.cursor <= |segs|
    ensures 0 <= r.cursor <= |segs|
  {
    if st.aborted then st
    else
      match choose(sentence, st.cursor, st.shift)
      case Some(w) =>
        Run(End(w), ShiftAfterHit, st.misses, st.out + Emit(segs, sentence, w),
            st.trace + [Hit(sentence, st.cursor, st.shift, w)], false)
      case None =>
        var misses := st.misses + 1;
        var trace := st.trace + [Miss(sentence, st.cursor, st.shift)];
        if misses > maxUnmatched then Run(st.cursor, st.shift, misses, st.out, trace, true)
        else Run(Min(st.cursor + 1, |segs| - 1), ShiftAfterMiss, misses, st.out, trace, false)
  }

  /** The walk over `sentences`, from the start. */
  function RunOn(segs: seq<Seg>, sentences: seq<string>, choose: Chooser, maxUnmatched: int): (r: Run)
    requires segs != [] && Sound(choose, |segs|)
    ensures 0 <= r.cursor <= |segs|
    decreases |sentences|
  {
    if sentences == [] then Start()
    else Next(segs, choose, maxUnmatched, RunOn(segs, sentences[..|sentences| - 1], choose, maxUnmatched), Last(sentences))
  }

  /** The walk the aligner makes with its own search. */
  function Walk(segs: seq<Seg>, sentences: seq<string>, ratio: Similarity, maxUnmatched: int): Run
    requires segs != []
  {
    SearcherSound(segs, ratio);
    RunOn(segs, sentences, Searcher(segs, ratio), maxUnmatched)
  }

  /**
   * The result of `merge_segments_based_on_sentences`: the emitted segments,
   * or the input itself after giving up or when nothing was emitted.
   */
  function Aligned(segs: seq<Seg>, sentences: seq<string>, ratio: Similarity, maxUnmatched: int): seq<Seg> {
    if segs == [] then segs
    else
      var r := Walk(segs, sentences, ratio, maxUnmatched);
      if r.aborted || r.out == [] then segs else r.out
  }

  // ---------------------------------------------------------------------------
  // The attempts of a walk

  /** Where the cursor goes after an attempt: past the window after a hit, one on (but not past the last fragment) after a miss. */
  function NextCursor(a: Attempt, n: int): int {
    match a
    case Hit(_, _, _, w) => End(w)
    case Miss(_, c, _) => Min(c + 1, n - 1)
  }

  function NextShift(a: Attempt): int {
    if a.Hit? then ShiftAfterHit else ShiftAfterMiss
  }

  function MissCount(trace: seq<Attempt>): nat {
    if trace == [] then 0 else MissCount(trace[..|trace| - 1]) + (if Last(trace).Miss? then 1 else 0)
  }

  /** Every hit's window lies in the fragments and starts at or after its cursor. */
  predicate HitsAhead(trace: seq<Attempt>, n: int) {
    forall k :: 0 <= k < |trace| && trace[k].Hit? ==>
      InBounds(trace[k].window, n) && trace[k].cursor <= trace[k].window.pos
  }

  /** The segments the hits of `trace` emit, in order. */
  function Emitted(segs: seq<Seg>, trace: seq<Attempt>): seq<Seg>
    requires HitsAhead(trace, |segs|)
  {
    if trace == [] then []
    else
      var a := Last(trace);
      Emitted(segs, trace[..|trace| - 1]) + (if a.Hit? then Emit(segs, a.sentence, a.window) else [])
  }

  /** Attempt `k` is the search for sentence `k` at its cursor and shift, and records its outcome. */
  predicate Consistent(sentences: seq<string>, choose: Chooser, trace: seq<Attempt>) {
    && |trace| <= |sentences|
    && forall k :: 0 <= k < |trace| ==>
         && trace[k].sentence == sentences[k]
         && 0 <= trace[k].cursor
         && choose(sentences[k], trace[k].cursor, trace[k].shift) == Outcome(trace[k])
  }

  /** The first search is at fragment 0 with shift 30; each next one is where the previous left the cursor. */
  predicate Follows(trace: seq<Attempt>, n: int) {
    && (trace != [] ==> trace[0].cursor == 0 && trace[0].shift == ShiftAfterHit)
    && forall k :: 0 <= k < |trace| - 1 ==>
         trace[k + 1].cursor == NextCursor(trace[k], n) && trace[k + 1].shift == NextShift(trace[k])
  }

  /** The state's cursor and shift are where the last attempt left them. */
  predicate Resumes(r: Run, n: int) {
    if r.trace == [] then r.cursor == 0 && r.shift == ShiftAfterHit
    else r.cursor == NextCursor(Last(r.trace), n) && r.shift == NextShift(Last(r.trace))
  }

  predicate TraceFacts(sentences: seq<string>, choose: Chooser, n: int, r: Run) {
    && Consistent(sentences, choose, r.trace)
    && Follows(r.trace, n)
    && (!r.aborted ==> |r.trace| == |sentences| && Resumes(r, n))
    && (r.aborted ==> r.trace != [] && Last(r.trace).Miss?)
  }

  lemma ConsistentSnoc(sentences: seq<string>, s: string, choose: Chooser, trace: seq<Attempt>, a: Attempt)
    requires Consistent(sentences, choose, trace) && |trace| == |sentences|
    requires a.sentence == s && 0 <= a.cursor && choose(s, a.cursor, a.shift) == Outcome(a)
    ensures Consistent(sentences + [s], choose, trace + [a])
  {
    var t, ss := trace + [a], sentences + [s];
    forall k | 0 <= k < |t|
      ensures t[k].sentence == ss[k] && 0 <= t[k].cursor && choose(ss[k], t[k].cursor, t[k].shift) == Outcome(t[k])
    {
      if k < |trace| {
        assert t[k] == trace[k] && ss[k] == sentences[k];
      }
    }
  }

  lemma ConsistentGrow(sentences: seq<string>, s: string, choose: Chooser, trace: seq<Attempt>)
    requires Consistent(sentences, choose, trace)
    ensures Consistent(sentences + [s], choose, trace)
  {
    assert forall k :: 0 <= k < |trace| ==> (sentences + [s])[k] == sentences[k];
  }

  lemma FollowsSnoc(trace: seq<Attempt>, a: Attempt, n: int)
    requires Follows(trace, n)
    requires trace == [] ==> a.cursor == 0 && a.shift == ShiftAfterHit
    requires trace != [] ==> a.cursor == NextCursor(Last(trace), n) && a.shift == NextShift(Last(trace))
    ensures Follows(trace + [a], n)
  {
    var t := trace + [a];
    forall k | 0 <= k < |t| - 1
      ensures t[k + 1].cursor == NextCursor(t[k], n) && t[k + 1].shift == NextShift(t[k])
    {
      assert t[k] == trace[k];
    }
  }

  /** One sentence keeps the facts about the attempts. */
  lemma NextTrace(segs: seq<Seg>, sentences: seq<string>, s: string, choose: Chooser, maxUnmatched: int, r0: Run)
    requires segs != [] && Sound(choose, |segs|) && 0 <= r0.cursor <= |segs|
    requires TraceFacts(sentences, choose, |segs|, r0)
    ensures TraceFacts(sentences + [s], choose, |segs|, Next(segs, choose, maxUnmatched, r0, s))
  {
    if r0.aborted {
      ConsistentGrow(sentences, s, choose, r0.trace);
    } else {
      var r := Next(segs, choose, maxUnmatched, r0, s);
      var a := Last(r.trace);
      assert r.trace == r0.trace + [a];
      ConsistentSnoc(sentences, s, choose, r0.trace, a);
      FollowsSnoc(r0.trace, a, |segs|);
    }
  }

  /**
   * The attempts of the walk: attempt `k` is the search for sentence `k` with
   * the outcome the chooser gives, the first is at fragment 0 with shift 30,
   * each next one is where the previous left the cursor, and the walk covers
   * every sentence unless it gave up on a miss.
   */
  lemma {:induction false} RunOnTrace(segs: seq<Seg>, sentences: seq<string>, choose: Chooser, maxUnmatched: int)
    requires segs != [] && Sound(choose, |segs|)
    ensures TraceFacts(sentences, choose, |segs|, RunOn(segs, sentences, choose, maxUnmatched))
    decreases |sentences|
  {
    if sentences != [] {
      var init := sentences[..|sentences| - 1];
      RunOnTrace(segs, init, choose, maxUnmatched);
      assert sentences == init + [Last(sentences)];
      NextTrace(segs, init, Last(sentences), choose, maxUnmatched, RunOn(segs, init, choose, maxUnmatched));
    }
  }

  /**
   * `unmatched_count` counts the misses; the walk has given up exactly when it
   * exceeds `max_unmatched`, and it gave up at the first miss that did.
   */
  lemma {:induction false} RunOnMisses(segs: seq<Seg>, sentences: seq<string>, choose: Chooser, maxUnmatched: int)
    requires segs != [] && Sound(choose, |segs|)
    ensures var r := RunOn(segs, sentences, choose, maxUnmatched);
      && r.misses == MissCount(r.trace)
      && (r.aborted <==> r.misses > Max(0, maxUnmatched))
      && (r.aborted ==> r.trace != [] && MissCount(r.trace[..|r.trace| - 1]) <= Max(0, maxUnmatched))
    decreases |sentences|
  {
    if sentences != [] {
      var init := sentences[..|sentences| - 1];
      RunOnMisses(segs, init, choose, maxUnmatched);
      var r0 := RunOn(segs, init, choose, maxUnmatched);
      var r := RunOn(segs, sentences, choose, maxUnmatched);
      if !r0.aborted {
        assert r.trace[..|r.trace| - 1] == r0.trace;
      }
    }
  }

  lemma HitsAheadSnoc(trace: seq<Attempt>, a: Attempt, n: int)
    requires HitsAhead(trace, n)
    requires a.Hit? ==> InBounds(a.window, n) && a.cursor <= a.window.pos
    ensures HitsAhead(trace + [a], n)
  {
    assert forall k :: 0 <= k < |trace| ==> (trace + [a])[k] == trace[k];
  }

  lemma EmittedSnoc(segs: seq<Seg>, trace: seq<Attempt>, a: Attempt)
    requires HitsAhead(trace, |segs|) && HitsAhead(trace + [a], |segs|)
    requires a.Hit? ==> InBounds(a.window, |segs|)
    ensures Emitted(segs, trace + [a])
      == Emitted(segs, trace) + (if a.Hit? then Emit(segs, a.sentence, a.window) else [])
  {
    assert (trace + [a])[..|trace|] == trace;
  }

  /** One sentence appends to `new_segments` what its hit emits. */
  lemma NextOut(segs: seq<Seg>, choose: Chooser, maxUnmatched: int, r0: Run, s: string)
    requires segs != [] && Sound(choose, |segs|) && 0 <= r0.cursor <= |segs|
    requires HitsAhead(r0.trace, |segs|) && r0.out == Emitted(segs, r0.trace)
    ensures var r := Next(segs, choose, maxUnmatched, r0, s);
      HitsAhead(r.trace, |segs|) && r.out == Emitted(segs, r.trace)
  {
    if !r0.aborted {
      var r := Next(segs, choose, maxUnmatched, r0, s);
      var a := Last(r.trace);
      assert r.trace == r0.trace + [a];
      HitsAheadSnoc(r0.trace, a, |segs|);
      EmittedSnoc(segs, r0.trace, a);
    }
  }

  /** Every hit's window is in range and at or after its cursor, and `new_segments` is what the hits emitted, in order. */
  lemma {:induction false} RunOnOut(segs: seq<Seg>, sentences: seq<string>, choose: Chooser, maxUnmatched: int)
    requires segs != [] && Sound(choose, |segs|)
    ensures var r := RunOn(segs, sentences, choose, maxUnmatched);
      HitsAhead(r.trace, |segs|) && r.out == Emitted(segs, r.trace)
    decreases |sentences|
  {
    if sentences != [] {
      var init := sentences[..|sentences| - 1];
      RunOnOut(segs, init, choose, maxUnmatched);
      NextOut(segs, choose, maxUnmatched, RunOn(segs, init, choose, maxUnmatched), Last(sentences));
    }
  }

  lemma {:induction false} EmittedEmpty(segs: seq<Seg>, trace: seq<Attempt>)
    requires HitsAhead(trace, |segs|)
    ensures Emitted(segs, trace) == [] <==> forall k :: 0 <= k < |trace| ==> trace[k].Miss?
    decreases |trace|
  {
    if trace != [] {
      var init := trace[..|trace| - 1];
      assert forall k :: 0 <= k < |init| ==> init[k] == trace[k];
      EmittedEmpty(segs, init);
    }
  }

  /** Each emitted segment comes from the window of one of the hits. */
  lemma {:induction false} EmittedFrom(segs: seq<Seg>, trace: seq<Attempt>, j: int)
    requires HitsAhead(trace, |segs|)
    requires 0 <= j < |Emitted(segs, trace)|
    ensures exists k :: (0 <= k < |trace| && trace[k].Hit?
      && FromWindow(Emitted(segs, trace)[j], segs, trace[k].sentence, trace[k].window))
    decreases |trace|
  {
    var init := trace[..|trace| - 1];
    var a := Last(trace);
    assert forall k :: 0 <= k < |init| ==> init[k] == trace[k];
    var e := Emitted(segs, init);
    if j < |e| {
      EmittedFrom(segs, init, j);
      var k :| 0 <= k < |init| && init[k].Hit? && FromWindow(e[j], segs, init[k].sentence, init[k].window);
      assert trace[k] == init[k];
    } else {
      EmitShape(segs, a.sentence, a.window);
      assert Emitted(segs, trace)[j] == Emit(segs, a.sentence, a.window)[j - |e|];
      assert trace[|trace| - 1] == a;
    }
  }

  /** After attempt `k1`, the cursor never falls below where `k1` left it, short of the last fragment. */
  lemma {:induction false} CursorFloor(trace: seq<Attempt>, n: int, k1: int, k2: int)
    requires Follows(trace, n) && HitsAhead(trace, n)
    requires 0 <= k1 < k2 < |trace|
    ensures trace[k2].cursor >= Min(NextCursor(trace[k1], n), n - 1)
    decreases k2
  {
    if k2 > k1 + 1 {
      CursorFloor(trace, n, k1, k2 - 1);
      assert trace[k2].cursor == NextCursor(trace[k2 - 1], n);
    }
  }

  // ---------------------------------------------------------------------------
  // What the aligner promises

  /**
   * The input comes back unchanged after giving up or when no sentence was
   * matched; otherwise the result is the emitted segments, and there are some.
   */
  lemma AlignedResult(segs: seq<Seg>, sentences: seq<string>, ratio: Similarity, maxUnmatched: int)
    requires segs != []
    ensures var r := Walk(segs, sentences, ratio, maxUnmatched);
      && (r.aborted || (forall k :: 0 <= k < |r.trace| ==> r.trace[k].Miss?) ==>
          Aligned(segs, sentences, ratio, maxUnmatched) == segs)
      && (!r.aborted && (exists k :: 0 <= k < |r.trace| && r.trace[k].Hit?) ==>
          Aligned(segs, sentences, ratio, maxUnmatched) == r.out != [])
  {
    SearcherSound(segs, ratio);
    var r := Walk(segs, sentences, ratio, maxUnmatched);
    RunOnOut(segs, sentences, Searcher(segs, ratio), maxUnmatched);
    EmittedEmpty(segs, r.trace);
  }

  /**
   * The walk searches sentence after sentence from fragment 0 with shift 30;
   * after a hit the cursor moves past the window and the shift is 30, after a
   * miss the cursor moves one on (but not past the last fragment) and the
   * shift is 100; it gives up at the first miss that takes the miss count over
   * `max_unmatched`, and otherwise searches every sentence.
   */
  lemma WalkSpec(segs: seq<Seg>, sentences: seq<string>, ratio: Similarity, maxUnmatched: int)
    requires segs != []
    ensures var r := Walk(segs, sentences, ratio, maxUnmatched);
      && Consistent(sentences, Searcher(segs, ratio), r.trace)
      && Follows(r.trace, |segs|)
      && (!r.aborted ==> |r.trace| == |sentences| && Resumes(r, |segs|))
      && r.misses == MissCount(r.trace)
      && (r.aborted <==> r.misses > Max(0, maxUnmatched))
      && (r.aborted ==> r.trace != [] && Last(r.trace).Miss?
                        && MissCount(r.trace[..|r.trace| - 1]) <= Max(0, maxUnmatched))
  {
    SearcherSound(segs, ratio);
    RunOnTrace(segs, sentences, Searcher(segs, ratio), maxUnmatched);
    RunOnMisses(segs, sentences, Searcher(segs, ratio), maxUnmatched);
  }

  /**
   * Every segment the walk emits carries, verbatim, a sentence whose search
   * accepted a window, and spans a quiet sub-run of that window.
   */
  lemma EmittedSegment(segs: seq<Seg>, sentences: seq<string>, ratio: Similarity, maxUnmatched: int, j: int)
    requires segs != []
    requires 0 <= j < |Walk(segs, sentences, ratio, maxUnmatched).out|
    ensures var r := Walk(segs, sentences, ratio, maxUnmatched);
      exists k :: (0 <= k < |r.trace| && k < |sentences| && r.trace[k].Hit?
        && Accepted(segs, sentences[k], ratio, r.trace[k].cursor, r.trace[k].shift, r.trace[k].window)
        && FromWindow(r.out[j], segs, sentences[k], r.trace[k].window))
  {
    SearcherSound(segs, ratio);
    var choose := Searcher(segs, ratio);
    var r := Walk(segs, sentences, ratio, maxUnmatched);
    RunOnTrace(segs, sentences, choose, maxUnmatched);
    RunOnOut(segs, sentences, choose, maxUnmatched);
    EmittedFrom(segs, r.trace, j);
    var k :| 0 <= k < |r.trace| && r.trace[k].Hit?
      && FromWindow(Emitted(segs, r.trace)[j], segs, r.trace[k].sentence, r.trace[k].window);
    var a := r.trace[k];
    assert choose(sentences[k], a.cursor, a.shift) == Some(a.window);
    assert Choose(segs, sentences[k], ratio, a.cursor, a.shift) == Some(a.window);
  }

  /**
   * Accepted windows come in order and do not overlap, except that once the
   * walk has reached the end, a miss brings it back to the last fragment and a
   * later sentence can take that fragment again.
   */
  lemma WindowsOrdered(segs: seq<Seg>, sentences: seq<string>, ratio: Similarity, maxUnmatched: int, k1: int, k2: int)
    requires segs != []
    requires var t := Walk(segs, sentences, ratio, maxUnmatched).trace;
      0 <= k1 < k2 < |t| && t[k1].Hit? && t[k2].Hit?
    ensures var t := Walk(segs, sentences, ratio, maxUnmatched).trace;
      End(t[k1].window) <= t[k2].window.pos
      || (End(t[k1].window) == |segs| && t[k2].window == Window(|segs| - 1, 1))
  {
    SearcherSound(segs, ratio);
    var t := Walk(segs, sentences, ratio, maxUnmatched).trace;
    RunOnTrace(segs, sentences, Searcher(segs, ratio), maxUnmatched);
    RunOnOut(segs, sentences, Searcher(segs, ratio), maxUnmatched);
    CursorFloor(t, |segs|, k1, k2);
  }

  // ---------------------------------------------------------------------------
  // The aligner

  /** The search loops for one sentence: `Choose`, computed. */
  method Search(segs: seq<Seg>, sentence: string, ratio: Similarity, cursor: int, shift: int)
      returns (r: Option<Window>)
    requires 0 <= cursor && InUnitRange(ratio)
    ensures r == Choose(segs, sentence, ratio, cursor, shift)
  {
    var proc := NormalizeText(sentence);
    var wc := CountWords(proc);
    var sizes := WindowSizes(Max(1, wc / 2), Min(2 * wc, |segs| - cursor), wc);
    SizesForBounds(wc, cursor, |segs|);
    assert sizes == SizesFor(wc, cursor, |segs|);
    var found, bestPos, bestSize, bestRatio := BestWindow(segs, proc, sizes, cursor, shift, ratio);
    if bestRatio >= Threshold && found {
      r := Some(Window(bestPos, bestSize));
    } else {
      r := None;
    }
  }

  /** The inner `for group in seg_groups` loop: one segment per group. */
  method SpanGroups(sentence: string, groups: seq<seq<Seg>>) returns (emitted: seq<Seg>)
    requires forall k :: 0 <= k < |groups| ==> groups[k] != []
    ensures emitted == Spans(sentence, groups)
  {
    ghost var spans := Spans(sentence, groups);
    emitted := [];
    for k := 0 to |groups|
      invariant emitted == spans[..k]
    {
      emitted := emitted + [Seg(sentence, groups[k][0].startTime, Last(groups[k]).endTime)];
      TakeSnoc(spans, k);
    }
    assert spans[..|groups|] == spans;
  }

  /** What a hit emits: the window's fragments grouped by pauses, then one segment per group. */
  method EmitGroups(segs: seq<Seg>, sentence: string, w: Window) returns (emitted: seq<Seg>)
    requires InBounds(w, |segs|)
    ensures emitted == Emit(segs, sentence, w)
  {
    var run := segs[w.pos..w.pos + w.size];
    assert run == segs[w.pos..End(w)];
    var groups: seq<seq<Seg>> := MergeByTimeGaps(run, MaxGap, false);
    GroupByGapsSpec(run, MaxGap);
    emitted := SpanGroups(sentence, groups);
  }

  /**
   * `merge_segments_based_on_sentences(segments, sentences, max_unmatched)`,
   * with the similarity ratio as a parameter.
   */
  method MergeBySentences(segs: seq<Seg>, sentences: seq<string>, maxUnmatched: int, ratio: Similarity)
      returns (merged: seq<Seg>)
    requires InUnitRange(ratio)
    ensures merged == Aligned(segs, sentences, ratio, maxUnmatched)
  {
    if segs == [] {
      return segs;
    }
    var n := |segs|;
    ghost var choose := Searcher(segs, ratio);
    SearcherSound(segs, ratio);
    var cursor, shift, misses := 0, ShiftAfterHit, 0;
    var out: seq<Seg> := [];
    ghost var trace: seq<Attempt> := [];
    for i := 0 to |sentences|
      invariant 0 <= cursor <= n
      invariant Run(cursor, shift, misses, out, trace, false) == RunOn(segs, sentences[..i], choose, maxUnmatched)
    {
      ghost var before := Run(cursor, shift, misses, out, trace, false);
      assert RunOn(segs, sentences[..i + 1], choose, maxUnmatched) == Next(segs, choose, maxUnmatched, before, sentences[i]) by {
        assert sentences[..i + 1][..i] == sentences[..i];
      }
      var sentence := sentences[i];
      var r := Search(segs, sentence, ratio, cursor, shift);
      assert choose(sentence, cursor, shift) == r;
      if r.Some? {
        var w := r.value;
        var emitted := EmitGroups(segs, sentence, w);
        out := out + emitted;
        trace := trace + [Hit(sentence, cursor, shift, w)];
        shift := ShiftAfterHit;
        cursor := End(w);
      } else {
        misses := misses + 1;
        trace := trace + [Miss(sentence, cursor, shift)];
        if misses > maxUnmatched {
          AbortSticks(segs, sentences, choose, maxUnmatched, i + 1);
          return segs;
        }
        shift := ShiftAfterMiss;
        cursor := Min(cursor + 1, n - 1);
      }
    }
    assert sentences[..|sentences|] == sentences;
    if out == [] {
      return segs;
    }
    return out;
  }

  /** Once the walk gives up, it stays given up. */
  lemma {:induction false} AbortSticks(segs: seq<Seg>, sentences: seq<string>, choose: Chooser, maxUnmatched: int, i: int)
    requires segs != [] && Sound(choose, |segs|) && 0 <= i <= |sentences|
    requires RunOn(segs, sentences[..i], choose, maxUnmatched).aborted
    ensures RunOn(segs, sentences, choose, maxUnmatched).aborted
    decreases |sentences|
  {
    if i < |sentences| {
      var init := sentences[..|sentences| - 1];
      assert init[..i] == sentences[..i];
      AbortSticks(segs, init, choose, maxUnmatched, i);
    } else {
      assert sentences[..i] == sentences;
    }
  }
}
