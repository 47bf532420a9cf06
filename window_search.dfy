/**
 * The window search of the sentence aligner (`merge_segments_based_on_sentences`):
 * the order in which window sizes are tried, the candidate windows for one
 * sentence, and the scan that keeps the first best-scoring window.
 */
module WindowSearch {
  import opened Strings
  import opened Segments
  import opened WordCounter

  /** Similarity of two texts, standing for `difflib.SequenceMatcher(None, a, b).ratio()`. */
  type Similarity = (string, string) -> real

  /** A similarity ratio lies between 0 and 1, as difflib's does. */
  ghost predicate InUnitRange(ratio: Similarity) {
    forall a, b :: 0.0 <= ratio(a, b) <= 1.0
  }

  // ---------------------------------------------------------------------------
  // The order of window sizes

  /** Size `x` is tried before size `y`: it is closer to the word count, or as close and smaller. */
  predicate TriedBefore(x: int, y: int, wc: int) {
    Abs(x - wc) < Abs(y - wc) || (Abs(x - wc) == Abs(y - wc) && x < y)
  }

  predicate OrderedSizes(s: seq<int>, wc: int) {
    forall i, j :: 0 <= i < j < |s| ==> TriedBefore(s[i], s[j], wc)
  }

  /** `range(lo, hi + 1)`. */
  function Range(lo: int, hi: int): (r: seq<int>)
    ensures |r| == if lo <= hi then hi - lo + 1 else 0
    ensures forall k :: 0 <= k < |r| ==> r[k] == lo + k
  {
    seq(if lo <= hi then hi - lo + 1 else 0, k => lo + k)
  }

  function InsertSize(x: int, s: seq<int>, wc: int): seq<int> {
    if s == [] then [x]
    else if TriedBefore(s[0], x, wc) then [s[0]] + InsertSize(x, s[1..], wc)
    else [x] + s
  }

  lemma {:induction false} InsertSizeMultiset(x: int, s: seq<int>, wc: int)
    ensures multiset(InsertSize(x, s, wc)) == multiset(s) + multiset{x}
    decreases |s|
  {
    if s != [] && TriedBefore(s[0], x, wc) {
      assert s == [s[0]] + s[1..];
      InsertSizeMultiset(x, s[1..], wc);
    }
  }

  lemma OrderedCons(y: int, s: seq<int>, wc: int)
    requires OrderedSizes(s, wc)
    requires s != [] ==> TriedBefore(y, s[0], wc)
    ensures OrderedSizes([y] + s, wc)
  {
    var t := [y] + s;
    forall i, j | 0 <= i < j < |t| ensures TriedBefore(t[i], t[j], wc) {
      if i == 0 {
        assert t[j] == s[j - 1];
        assert j - 1 == 0 || TriedBefore(s[0], s[j - 1], wc);
      } else {
        assert t[i] == s[i - 1] && t[j] == s[j - 1];
      }
    }
  }

  lemma {:induction false} InsertSizeOrdered(x: int, s: seq<int>, wc: int)
    requires OrderedSizes(s, wc) && x !in s
    ensures OrderedSizes(InsertSize(x, s, wc), wc)
    decreases |s|
  {
    if s != [] {
      if TriedBefore(s[0], x, wc) {
        var t := s[1..];
        assert OrderedSizes(t, wc) by {
          forall i, j | 0 <= i < j < |t| ensures TriedBefore(t[i], t[j], wc) {
            assert t[i] == s[i + 1] && t[j] == s[j + 1];
          }
        }
        assert x !in t;
        InsertSizeOrdered(x, t, wc);
        var r := InsertSize(x, t, wc);
        assert r[0] == x || (t != [] && r[0] == t[0]);
        assert t != [] ==> TriedBefore(s[0], t[0], wc);
        OrderedCons(s[0], r, wc);
      } else {
        assert x != s[0];
        OrderedCons(x, s, wc);
      }
    }
  }

  /** A stable insertion sort by distance from the word count. */
  function SortSizes(s: seq<int>, wc: int): seq<int>
    decreases |s|
  {
    if s == [] then [] else InsertSize(Last(s), SortSizes(s[..|s| - 1], wc), wc)
  }

  lemma {:induction false} SortSizesSpec(s: seq<int>, wc: int)
    requires forall i, j :: 0 <= i < j < |s| ==> s[i] < s[j]
    ensures OrderedSizes(SortSizes(s, wc), wc)
    ensures multiset(SortSizes(s, wc)) == multiset(s)
    decreases |s|
  {
    if s != [] {
      var init := s[..|s| - 1];
      SortSizesSpec(init, wc);
      assert Last(s) !in init;
      assert Last(s) !in multiset(SortSizes(init, wc));
      InsertSizeOrdered(Last(s), SortSizes(init, wc), wc);
      InsertSizeMultiset(Last(s), SortSizes(init, wc), wc);
      assert s == init + [Last(s)];
    }
  }

  /**
   * `sorted(range(lo, hi + 1), key=lambda x: abs(x - wc))`. Python's sort is
   * stable and the range ascends, so sizes equally far from `wc` come smaller first.
   */
  function WindowSizes(lo: int, hi: int, wc: int): seq<int> {
    SortSizes(Range(lo, hi), wc)
  }

  /**
   * The sizes tried are exactly `lo..hi`, each once, in strictly increasing
   * distance from `wc`, the smaller of two equally distant sizes first.
   */
  lemma WindowSizesSpec(lo: int, hi: int, wc: int)
    ensures OrderedSizes(WindowSizes(lo, hi, wc), wc)
    ensures |WindowSizes(lo, hi, wc)| == |Range(lo, hi)|
    ensures forall x :: x in WindowSizes(lo, hi, wc) <==> lo <= x <= hi
  {
    var r := Range(lo, hi);
    SortSizesSpec(r, wc);
    var sizes := WindowSizes(lo, hi, wc);
    assert |sizes| == |multiset(sizes)| == |multiset(r)| == |r|;
    forall x ensures x in sizes <==> lo <= x <= hi {
      assert x in sizes <==> x in multiset(sizes);
      assert x in r <==> x in multiset(r);
      if lo <= x <= hi {
        assert r[x - lo] == x;
      }
    }
  }

  // ---------------------------------------------------------------------------
  // Candidate windows

  /** The fragments `segments[pos:pos + size]`. */
  datatype Window = Window(pos: int, size: int)

  function End(w: Window): int {
    w.pos + w.size
  }

  predicate InBounds(w: Window, n: int) {
    0 <= w.pos && 1 <= w.size && End(w) <= n
  }

  /** `max_start`: one past the last start position tried for windows of `size`. */
  function StartLimit(cursor: int, shift: int, n: int, size: int): int {
    Min(cursor + shift + 1, n - size + 1)
  }

  /** The windows of one size, in the order the inner loop tries them. */
  function Row(cursor: int, shift: int, n: int, size: int): seq<Window> {
    seq(Max(0, StartLimit(cursor, shift, n, size) - cursor), k => Window(cursor + k, size))
  }

  function Rows(sizes: seq<int>, cursor: int, shift: int, n: int): seq<seq<Window>> {
    seq(|sizes|, i requires 0 <= i < |sizes| => Row(cursor, shift, n, sizes[i]))
  }

  /** Every window the nested loops try, in the order they try them. */
  function Candidates(sizes: seq<int>, cursor: int, shift: int, n: int): (ws: seq<Window>)
    ensures 0 <= cursor && (forall i :: 0 <= i < |sizes| ==> sizes[i] >= 1) ==>
      forall k :: 0 <= k < |ws| ==> InBounds(ws[k], n)
    ensures forall k :: 0 <= k < |ws| ==> CandidateWindow(ws[k], sizes, cursor, shift, n)
  {
    var ws := Flatten(Rows(sizes, cursor, shift, n));
    forall k | 0 <= k < |ws| ensures CandidateWindow(ws[k], sizes, cursor, shift, n) {
      CandidateShape(sizes, cursor, shift, n, k);
    }
    ws
  }

  /** A window of one of the sizes, starting between the cursor and `max_start`. */
  predicate CandidateWindow(w: Window, sizes: seq<int>, cursor: int, shift: int, n: int) {
    && (exists i :: 0 <= i < |sizes| && w.size == sizes[i])
    && cursor <= w.pos <= cursor + shift
    && End(w) <= n
  }

  lemma CandidateShape(sizes: seq<int>, cursor: int, shift: int, n: int, k: int)
    requires 0 <= k < |Flatten(Rows(sizes, cursor, shift, n))|
    ensures CandidateWindow(Flatten(Rows(sizes, cursor, shift, n))[k], sizes, cursor, shift, n)
  {
    var rows := Rows(sizes, cursor, shift, n);
    FlattenMember(rows, k);
    var i, j :| 0 <= i < |rows| && 0 <= j < |rows[i]| && Flatten(rows)[k] == rows[i][j];
    assert rows[i][j] == Window(cursor + j, sizes[i]);
  }

  // ---------------------------------------------------------------------------
  // Scores and the scan

  /** `preprocess_text(''.join(asr_texts[pos:pos + size]))`. */
  function WindowText(segs: seq<Seg>, w: Window): string
    requires InBounds(w, |segs|)
  {
    NormalizeText(Concat(Texts(segs[w.pos..End(w)])))
  }

  predicate AllInBounds(ws: seq<Window>, n: int) {
    forall k :: 0 <= k < |ws| ==> InBounds(ws[k], n)
  }

  /** The ratio of the processed sentence against each window, in order. */
  function Scores(segs: seq<Seg>, proc: string, ratio: Similarity, ws: seq<Window>): (r: seq<real>)
    requires AllInBounds(ws, |segs|)
    ensures |r| == |ws|
  {
    seq(|ws|, k requires 0 <= k < |ws| => ratio(proc, WindowText(segs, ws[k])))
  }

  /** The outcome of a scan: the index of the window kept (-1 for none) and its score. */
  datatype Pick = Pick(index: int, best: real)

  /**
   * The scan with a strict `>` update from 0.0: the first of the highest
   * scores, provided it is positive.
   */
  function PickBest(scores: seq<real>): (p: Pick)
    ensures -1 <= p.index < |scores|
    ensures p.index == -1 ==> p.best == 0.0 && forall k :: 0 <= k < |scores| ==> scores[k] <= 0.0
    ensures p.index >= 0 ==> p.best == scores[p.index] > 0.0
    ensures p.index >= 0 ==> forall k :: 0 <= k < |scores| ==> scores[k] <= p.best
    ensures p.index >= 0 ==> forall k :: 0 <= k < p.index ==> scores[k] < p.best
    decreases |scores|
  {
    if scores == [] then Pick(-1, 0.0)
    else
      var p := PickBest(scores[..|scores| - 1]);
      if Last(scores) > p.best then Pick(|scores| - 1, Last(scores)) else p
  }

  /** Once a perfect score is kept, the rest of the scan changes nothing. */
  lemma {:induction false} PickSaturated(scores: seq<real>, m: int)
    requires 0 <= m <= |scores|
    requires PickBest(scores[..m]).best == 1.0
    requires forall k :: 0 <= k < |scores| ==> scores[k] <= 1.0
    ensures PickBest(scores) == PickBest(scores[..m])
    decreases |scores| - m
  {
    if m < |scores| {
      var init := scores[..|scores| - 1];
      assert init[..m] == scores[..m];
      PickSaturated(init, m);
    } else {
      assert scores[..m] == scores;
    }
  }

  /** The scan state `(found, pos, size, best)` is the scan of the scores of `seen`. */
  predicate Tracks(found: bool, pos: int, size: int, best: real, seen: seq<Window>, scores: seq<real>)
    requires |seen| == |scores|
  {
    var p := PickBest(scores);
    && best == p.best
    && (found <==> p.index >= 0)
    && (found ==> Window(pos, size) == seen[p.index])
  }

  lemma TracksStep(found: bool, pos: int, size: int, best: real, seen: seq<Window>, scores: seq<real>,
                   w: Window, r: real)
    requires |seen| == |scores|
    requires Tracks(found, pos, size, best, seen, scores)
    ensures r > best ==> Tracks(true, w.pos, w.size, r, seen + [w], scores + [r])
    ensures r <= best ==> Tracks(found, pos, size, best, seen + [w], scores + [r])
  {
    assert (scores + [r])[..|scores|] == scores;
  }

  /** The scores of a prefix of the windows are the prefix of their scores. */
  lemma ScoresPrefix(segs: seq<Seg>, proc: string, ratio: Similarity, ws: seq<Window>, m: int)
    requires AllInBounds(ws, |segs|) && 0 <= m <= |ws|
    ensures AllInBounds(ws[..m], |segs|)
    ensures Scores(segs, proc, ratio, ws[..m]) == Scores(segs, proc, ratio, ws)[..m]
  {
    assert forall k :: 0 <= k < m ==> ws[..m][k] == ws[k];
  }

  lemma ScoresSnoc(segs: seq<Seg>, proc: string, ratio: Similarity, ws: seq<Window>, w: Window)
    requires AllInBounds(ws, |segs|) && InBounds(w, |segs|)
    ensures AllInBounds(ws + [w], |segs|)
    ensures Scores(segs, proc, ratio, ws + [w]) == Scores(segs, proc, ratio, ws) + [ratio(proc, WindowText(segs, w))]
  {
    assert forall k :: 0 <= k < |ws| ==> (ws + [w])[k] == ws[k];
  }

  /** The scan state `(found, pos, size, best)` as the source keeps it. */
  datatype Scan = Scan(found: bool, pos: int, size: int, best: real)

  /** The state after scanning `ws` in order, starting from nothing kept and 0.0. */
  function ScanOf(segs: seq<Seg>, proc: string, ratio: Similarity, ws: seq<Window>): (st: Scan)
    requires AllInBounds(ws, |segs|)
    ensures ws == [] ==> st == Scan(false, 0, 0, 0.0)
    decreases |ws|
  {
    if ws == [] then Scan(false, 0, 0, 0.0)
    else
      var st := ScanOf(segs, proc, ratio, ws[..|ws| - 1]);
      var r := ratio(proc, WindowText(segs, Last(ws)));
      if r > st.best then Scan(true, Last(ws).pos, Last(ws).size, r) else st
  }

  /** The scan state is the first-maximum pick of the scores. */
  lemma {:induction false} ScanOfTracks(segs: seq<Seg>, proc: string, ratio: Similarity, ws: seq<Window>)
    requires AllInBounds(ws, |segs|)
    ensures var st := ScanOf(segs, proc, ratio, ws);
      Tracks(st.found, st.pos, st.size, st.best, ws, Scores(segs, proc, ratio, ws))
    decreases |ws|
  {
    if ws != [] {
      var init := ws[..|ws| - 1];
      assert ws == init + [Last(ws)];
      ScanOfTracks(segs, proc, ratio, init);
      var st := ScanOf(segs, proc, ratio, init);
      TracksStep(st.found, st.pos, st.size, st.best, init, Scores(segs, proc, ratio, init),
                 Last(ws), ratio(proc, WindowText(segs, Last(ws))));
      ScoresSnoc(segs, proc, ratio, init, Last(ws));
    }
  }

  /**
   * Leaving the scan after a perfect score, or after the last candidate, gives
   * the scan of all candidates.
   */
  lemma FinishScan(segs: seq<Seg>, proc: string, ratio: Similarity, cands: seq<Window>, seen: seq<Window>)
    requires InUnitRange(ratio)
    requires AllInBounds(cands, |segs|)
    requires |seen| <= |cands| && seen == cands[..|seen|]
    requires AllInBounds(seen, |segs|)
    requires ScanOf(segs, proc, ratio, seen).best == 1.0 || seen == cands
    ensures var st := ScanOf(segs, proc, ratio, seen);
      Tracks(st.found, st.pos, st.size, st.best, cands, Scores(segs, proc, ratio, cands))
  {
    var all := Scores(segs, proc, ratio, cands);
    ScanOfTracks(segs, proc, ratio, seen);
    ScoresPrefix(segs, proc, ratio, cands, |seen|);
    if ScanOf(segs, proc, ratio, seen).best == 1.0 {
      assert forall k :: 0 <= k < |all| ==> all[k] == ratio(proc, WindowText(segs, cands[k])) <= 1.0;
      PickSaturated(all, |seen|);
    }
  }

  /** Scores one window and keeps it when it beats the best so far (the strict `>` of the scan). */
  method TryWindow(segs: seq<Seg>, proc: string, ratio: Similarity, w: Window, ghost seen: seq<Window>,
                   found0: bool, pos0: int, size0: int, best0: real)
      returns (found: bool, bestPos: int, bestSize: int, bestRatio: real, r: real)
    requires InBounds(w, |segs|) && AllInBounds(seen, |segs|) && InUnitRange(ratio)
    requires Scan(found0, pos0, size0, best0) == ScanOf(segs, proc, ratio, seen)
    ensures r == ratio(proc, WindowText(segs, w)) && r <= 1.0
    ensures AllInBounds(seen + [w], |segs|)
    ensures Scan(found, bestPos, bestSize, bestRatio) == ScanOf(segs, proc, ratio, seen + [w])
  {
    r := ratio(proc, WindowText(segs, w));
    assert (seen + [w])[..|seen|] == seen;
    if r > best0 {
      found, bestPos, bestSize, bestRatio := true, w.pos, w.size, r;
    } else {
      found, bestPos, bestSize, bestRatio := found0, pos0, size0, best0;
    }
  }

  /**
   * The inner loop of the aligner: the windows of one size, from the cursor
   * up to `max_start`, leaving at a perfect score. `taken` is how many
   * windows it tried.
   */
  method ScanRow(segs: seq<Seg>, proc: string, size: int, cursor: int, shift: int, ratio: Similarity,
                 ghost seen0: seq<Window>, found0: bool, pos0: int, size0: int, best0: real)
      returns (found: bool, bestPos: int, bestSize: int, bestRatio: real, ghost taken: nat, ghost seen: seq<Window>)
    requires 0 <= cursor && 1 <= size && InUnitRange(ratio)
    requires AllInBounds(seen0, |segs|)
    requires Scan(found0, pos0, size0, best0) == ScanOf(segs, proc, ratio, seen0)
    requires best0 < 1.0
    ensures taken <= |Row(cursor, shift, |segs|, size)|
    ensures bestRatio < 1.0 ==> taken == |Row(cursor, shift, |segs|, size)|
    ensures bestRatio <= 1.0
    ensures seen == seen0 + Row(cursor, shift, |segs|, size)[..taken]
    ensures AllInBounds(seen, |segs|) && Scan(found, bestPos, bestSize, bestRatio) == ScanOf(segs, proc, ratio, seen)
  {
    found, bestPos, bestSize, bestRatio := found0, pos0, size0, best0;
    ghost var row := Row(cursor, shift, |segs|, size);
    var maxStart := Min(cursor + shift + 1, |segs| - size + 1);
    assert |row| == Max(0, maxStart - cursor);
    var start := cursor;
    taken := 0;
    seen := seen0;
    assert seen0 + row[..0] == seen0;
    while start < maxStart
      invariant cursor <= start && taken == start - cursor <= |row|
      invariant start < maxStart ==> taken < |row|
      invariant seen == seen0 + row[..taken]
      invariant AllInBounds(seen, |segs|)
      invariant Scan(found, bestPos, bestSize, bestRatio) == ScanOf(segs, proc, ratio, seen)
      invariant bestRatio < 1.0
    {
      var w := Window(start, size);
      assert row[taken] == w;
      assert row[..taken + 1] == row[..taken] + [w] by {
        TakeSnoc(row, taken);
      }
      var r;
      found, bestPos, bestSize, bestRatio, r := TryWindow(segs, proc, ratio, w, seen, found, bestPos, bestSize, bestRatio);
      seen := seen + [w];
      taken := taken + 1;
      if r == 1.0 {
        return;
      }
      start := start + 1;
    }
  }

  /**
   * The two nested loops of the aligner for one sentence: every size in
   * order, every start from the cursor to `max_start`, keeping a window only
   * when it beats the best so far, and leaving both loops at a perfect score.
   * `seen` is the prefix of the candidates tried.
   */
  method ScanRows(segs: seq<Seg>, proc: string, sizes: seq<int>, cursor: int, shift: int, ratio: Similarity)
      returns (found: bool, bestPos: int, bestSize: int, bestRatio: real, ghost seen: seq<Window>)
    requires 0 <= cursor
    requires forall i :: 0 <= i < |sizes| ==> sizes[i] >= 1
    requires InUnitRange(ratio)
    ensures var cands := Flatten(Rows(sizes, cursor, shift, |segs|));
      |seen| <= |cands| && seen == cands[..|seen|] && (bestRatio == 1.0 || seen == cands)
    ensures AllInBounds(seen, |segs|) && Scan(found, bestPos, bestSize, bestRatio) == ScanOf(segs, proc, ratio, seen)
  {
    found, bestPos, bestSize, bestRatio := false, 0, 0, 0.0;
    ghost var rows := Rows(sizes, cursor, shift, |segs|);
    seen := [];
    var i := 0;
    while i < |sizes|
      invariant 0 <= i <= |sizes|
      invariant seen == Flatten(rows[..i])
      invariant AllInBounds(seen, |segs|)
      invariant Scan(found, bestPos, bestSize, bestRatio) == ScanOf(segs, proc, ratio, seen)
      invariant bestRatio < 1.0
    {
      ghost var taken, seen';
      assert rows[i] == Row(cursor, shift, |segs|, sizes[i]);
      found, bestPos, bestSize, bestRatio, taken, seen' :=
        ScanRow(segs, proc, sizes[i], cursor, shift, ratio, seen, found, bestPos, bestSize, bestRatio);
      FlattenPrefix(rows, i, taken);
      if bestRatio == 1.0 {
        seen := seen';
        return;
      }
      assert rows[i][..taken] == rows[i];
      TakeSnoc(rows, i);
      FlattenAppend(rows[..i], rows[i]);
      seen := seen';
      i := i + 1;
    }
    assert rows[..|sizes|] == rows;
    assert Flatten(rows)[..|seen|] == seen;
  }

  /** The aligner's search for one sentence gives the scan of all candidates. */
  method BestWindow(segs: seq<Seg>, proc: string, sizes: seq<int>, cursor: int, shift: int, ratio: Similarity)
      returns (found: bool, bestPos: int, bestSize: int, bestRatio: real)
    requires 0 <= cursor
    requires forall i :: 0 <= i < |sizes| ==> sizes[i] >= 1
    requires InUnitRange(ratio)
    ensures var cands := Candidates(sizes, cursor, shift, |segs|);
      var p := PickBest(Scores(segs, proc, ratio, cands));
      && bestRatio == p.best
      && (found <==> p.index >= 0)
      && (found ==> Window(bestPos, bestSize) == cands[p.index])
  {
    ghost var seen;
    found, bestPos, bestSize, bestRatio, seen := ScanRows(segs, proc, sizes, cursor, shift, ratio);
    ghost var cands := Candidates(sizes, cursor, shift, |segs|);
    assert cands == Flatten(Rows(sizes, cursor, shift, |segs|));
    FinishScan(segs, proc, ratio, cands, seen);
  }
}
