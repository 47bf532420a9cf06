/**
 * `split_asr_data` and `determine_num_segments`: a transcript is cut into a
 * requested number of chunks, each cut placed near an even share of the words,
 * preferring a fragment that ends a sentence, does not end on a connective and
 * is followed by a long pause.
 */
module ChunkSplitter {
  import opened Strings
  import opened Segments
  import opened WordCounter

  /** How many fragments on either side of the word target are candidates. */
  const SearchRange := 30

  /** `sentence_end_markers` of `split_asr_data`. */
  const SentenceMarks: seq<char> := ['.', '!', '?', '。', '！', '？', '…']

  /** `bad_end_words`: words a chunk should not end on. */
  const BadEndWords: seq<string> :=
    ["and", "or", "but", "so", "yet", "for", "nor", "in", "on", "at", "to", "with", "by", "as"]

  /** `text.strip().lower()` of a fragment. */
  function Key(s: Seg): string {
    Lower(Strip(s.text))
  }

  /** Some sentence mark occurs in the text. */
  predicate EndsSentence(t: string) {
    exists i :: 0 <= i < |t| && t[i] in SentenceMarks
  }

  /** The text ends with a bad end word (line 335 and 339). */
  predicate EndsOnBadWord(t: string) {
    exists k :: 0 <= k < |BadEndWords| && EndsWith(t, BadEndWords[k])
  }

  /** The text ends with a bad end word, bare or followed by a space (line 303). */
  predicate EndsBadly(t: string) {
    exists k :: 0 <= k < |BadEndWords| && (EndsWith(t, BadEndWords[k]) || EndsWith(t, BadEndWords[k] + " "))
  }

  // ---------------------------------------------------------------------------
  // Cumulative word counts

  /** The running totals: `r[0] == 0` and `r[i + 1] == r[i] + counts[i]`. */
  function PrefixSums(counts: seq<int>): (r: seq<int>)
    ensures |r| == |counts| + 1
    decreases |counts|
  {
    if counts == [] then [0]
    else
      var c := PrefixSums(counts[..|counts| - 1]);
      c + [Last(c) + Last(counts)]
  }

  lemma {:induction false} PrefixSumsSpec(counts: seq<int>)
    ensures PrefixSums(counts)[0] == 0
    ensures forall i :: 0 <= i < |counts| ==> PrefixSums(counts)[i + 1] == PrefixSums(counts)[i] + counts[i]
    decreases |counts|
  {
    if counts != [] {
      var init := counts[..|counts| - 1];
      PrefixSumsSpec(init);
      var c := PrefixSums(init);
      assert PrefixSums(counts) == c + [Last(c) + Last(counts)];
      forall i | 0 <= i < |counts|
        ensures PrefixSums(counts)[i + 1] == PrefixSums(counts)[i] + counts[i]
      {
        if i < |init| {
          assert init[i] == counts[i];
        }
      }
    }
  }

  /** With counts never negative, the running totals never decrease. */
  lemma PrefixSumsMonotone(counts: seq<int>, i: int, j: int)
    requires forall k :: 0 <= k < |counts| ==> counts[k] >= 0
    requires 0 <= i <= j <= |counts|
    ensures PrefixSums(counts)[i] <= PrefixSums(counts)[j]
    decreases j - i
  {
    if i < j {
      PrefixSumsSpec(counts);
      PrefixSumsMonotone(counts, i, j - 1);
    }
  }

  /** The word count of each fragment. */
  function Counts(segs: seq<Seg>): (r: seq<int>)
    ensures |r| == |segs|
  {
    seq(|segs|, i requires 0 <= i < |segs| => WordCount(segs[i].text))
  }

  // ---------------------------------------------------------------------------
  // Scoring one candidate

  /** The pause after fragment `j`, or none after the last. */
  function PauseAfter(segs: seq<Seg>, j: int): int
    requires 0 <= j < |segs|
  {
    if j < |segs| - 1 then segs[j + 1].startTime - segs[j].endTime else 0
  }

  /**
   * What the cut search reads of a transcript: each fragment's stripped,
   * lower-cased text, the pause after it, and the running word totals.
   */
  datatype Profile = Profile(keys: seq<string>, pauses: seq<int>, cum: seq<int>)

  predicate Sized(p: Profile) {
    |p.pauses| == |p.keys| && |p.cum| == |p.keys| + 1
  }

  function ProfileOf(segs: seq<Seg>): (p: Profile)
    ensures Sized(p) && |p.keys| == |segs|
  {
    Profile(seq(|segs|, j requires 0 <= j < |segs| => Key(segs[j])),
            seq(|segs|, j requires 0 <= j < |segs| => PauseAfter(segs, j)),
            PrefixSums(Counts(segs)))
  }

  /**
   * The score of cutting after fragment `j`, in thousandths of a point: a tenth
   * of a point off per word from the target, ten for a sentence mark, minus
   * twenty for a bad end word, one per second of pause.
   */
  function Score(p: Profile, target: int, j: int): int
    requires Sized(p) && 0 <= j < |p.keys|
  {
    var t := p.keys[j];
    -10 * Abs(p.cum[j + 1] - target)
      + (if EndsSentence(t) then 10000 else 0)
      - (if EndsBadly(t) then 20000 else 0)
      + p.pauses[j]
  }

  /** A cut that ends a sentence, not on a bad word, within a hundred words of the target. */
  predicate Perfect(p: Profile, target: int, j: int)
    requires Sized(p) && 0 <= j < |p.keys|
  {
    var t := p.keys[j];
    EndsSentence(t) && !EndsBadly(t) && Abs(p.cum[j + 1] - target) < 100
  }

  /** `best_score = -1`, in thousandths. */
  const NoScore := -1000

  datatype Best = Best(index: int, score: int)

  /** The score and the perfect test of each candidate, as the candidate loop sees them. */
  type Scorer = int -> int
  type Tester = int -> bool

  /**
   * The candidate loop from `j` to `hi`, skipping cuts already chosen: the
   * first strictly better score replaces the best, and a perfect cut ends the
   * loop.
   */
  function Scan(score: Scorer, perfect: Tester, chosen: seq<int>, j: int, hi: int, b: Best): (r: Best)
    decreases hi + 1 - j
  {
    if j > hi then b
    else if j in chosen then Scan(score, perfect, chosen, j + 1, hi, b)
    else
      var b' := if score(j) > b.score then Best(j, score(j)) else b;
      if perfect(j) then Best(j, b'.score)
      else Scan(score, perfect, chosen, j + 1, hi, b')
  }

  /** A candidate: in the window and not already chosen. */
  predicate Open(chosen: seq<int>, lo: int, hi: int, j: int) {
    lo <= j <= hi && j !in chosen
  }

  /** With a perfect candidate in the window, the loop stops at the first one. */
  lemma {:induction false} ScanFindsPerfect(score: Scorer, perfect: Tester, chosen: seq<int>, j: int, hi: int, b: Best, p: int)
    requires Open(chosen, j, hi, p) && perfect(p)
    requires forall k :: j <= k < p && Open(chosen, j, hi, k) ==> !perfect(k)
    ensures Scan(score, perfect, chosen, j, hi, b).index == p
    decreases hi + 1 - j
  {
    if j < p {
      if j !in chosen {
        var b' := if score(j) > b.score then Best(j, score(j)) else b;
        ScanFindsPerfect(score, perfect, chosen, j + 1, hi, b', p);
      } else {
        ScanFindsPerfect(score, perfect, chosen, j + 1, hi, b, p);
      }
    }
  }

  /**
   * With no perfect candidate in the window, the loop keeps the incoming best
   * unless some candidate beats it, and then ends on the first candidate of
   * the highest score.
   */
  lemma {:induction false} ScanFindsBest(score: Scorer, perfect: Tester, chosen: seq<int>, j: int, hi: int, b: Best)
    requires forall k :: Open(chosen, j, hi, k) ==> !perfect(k)
    ensures var r := Scan(score, perfect, chosen, j, hi, b);
      && r.score >= b.score
      && (forall k :: Open(chosen, j, hi, k) ==> score(k) <= r.score)
      && (r == b || (Open(chosen, j, hi, r.index) && r.score == score(r.index) && r.score > b.score
                     && forall k :: Open(chosen, j, hi, k) && k < r.index ==> score(k) < r.score))
    decreases hi + 1 - j
  {
    if j <= hi {
      if j in chosen {
        ScanFindsBest(score, perfect, chosen, j + 1, hi, b);
      } else {
        var b' := if score(j) > b.score then Best(j, score(j)) else b;
        ScanFindsBest(score, perfect, chosen, j + 1, hi, b');
      }
    }
  }

  /** The loop only ever picks a fragment of the window that was not chosen before, or keeps the incoming best. */
  lemma {:induction false} ScanInWindow(score: Scorer, perfect: Tester, chosen: seq<int>, j: int, hi: int, b: Best)
    ensures var r := Scan(score, perfect, chosen, j, hi, b).index;
      r == b.index || (j <= r <= hi && r !in chosen)
    decreases hi + 1 - j
  {
    if j <= hi {
      if j in chosen {
        ScanInWindow(score, perfect, chosen, j + 1, hi, b);
      } else {
        var b' := if score(j) > b.score then Best(j, score(j)) else b;
        ScanInWindow(score, perfect, chosen, j + 1, hi, b');
      }
    }
  }

  /** `Score` extended to every index. */
  function ScoreOf(p: Profile, target: int): Scorer
    requires Sized(p)
  {
    j => if 0 <= j < |p.keys| then Score(p, target, j) else 0
  }

  /** `Perfect` extended to every index. */
  function PerfectOf(p: Profile, target: int): Tester
    requires Sized(p)
  {
    j => 0 <= j < |p.keys| && Perfect(p, target, j)
  }

  // ---------------------------------------------------------------------------
  // Choosing one cut

  /** The first fragment whose running total reaches the target, or 0 (the search of lines 269-273). */
  function ReachIndex(cum: seq<int>, target: int, j: int, n: int): (r: int)
    requires 0 <= j <= n && |cum| == n + 1
    ensures 0 <= r < Max(n, 1)
    ensures 0 <= r < n ==> (r == 0 || r >= j)
    decreases n - j
  {
    if j == n then 0
    else if cum[j + 1] >= target then j
    else ReachIndex(cum, target, j + 1, n)
  }

  lemma {:induction false} ReachIndexSpec(cum: seq<int>, target: int, j: int, n: int)
    requires 0 <= j <= n && |cum| == n + 1
    ensures var r := ReachIndex(cum, target, j, n);
      || (j <= r < n && cum[r + 1] >= target && forall k :: j < k <= r ==> cum[k] < target)
      || (r == 0 && forall k :: j < k <= n ==> cum[k] < target)
    decreases n - j
  {
    if j < n && cum[j + 1] < target {
      ReachIndexSpec(cum, target, j + 1, n);
    }
  }

  /** The backward search of lines 337-341: the nearest fragment from `j` down to `lo` that passes `ok`. */
  function BackFrom(ok: Tester, j: int, lo: int, fallback: int): (r: int)
    ensures r == fallback || (lo <= r <= j && ok(r))
    decreases j + 1 - lo
  {
    if j < lo then fallback
    else if ok(j) then j
    else BackFrom(ok, j - 1, lo, fallback)
  }

  /** The search stops at the first fragment that passes, and falls back only when none does. */
  lemma {:induction false} BackFromNearest(ok: Tester, j: int, lo: int, fallback: int)
    ensures var r := BackFrom(ok, j, lo, fallback);
      && (forall k :: Max(r, lo - 1) < k <= j ==> !ok(k))
      && (r == fallback && fallback > j ==> forall k :: lo <= k <= j ==> !ok(k))
    decreases j + 1 - lo
  {
    if j >= lo && !ok(j) {
      BackFromNearest(ok, j - 1, lo, fallback);
    }
  }

  /** `EndsWell` of each fragment's text, extended to every index. */
  function WellOf(p: Profile): Tester {
    j => 0 <= j < |p.keys| && EndsWell(p.keys[j])
  }

  /** A sentence mark and no bad end word. */
  predicate EndsWell(t: string) {
    EndsSentence(t) && !EndsOnBadWord(t)
  }

  /** The window of candidates around the fragment that reaches the target. */
  function WindowLo(si: int): int { Max(0, si - SearchRange) }

  function WindowHi(si: int, n: int): int { Min(n - 1, si + SearchRange) }

  /** The fragment that first reaches the `i`-th target. */
  function Anchor(p: Profile, wps: int, i: int): int
    requires Sized(p)
  {
    ReachIndex(p.cum, i * wps, 0, |p.keys|)
  }

  /** What the candidate loop settles on for the `i`-th target. */
  function Pick(p: Profile, wps: int, i: int, chosen: seq<int>): (b: Best)
    requires Sized(p)
    ensures 0 <= b.index < Max(|p.keys|, 1)
  {
    var si := Anchor(p, wps, i);
    ScanInWindow(ScoreOf(p, i * wps), PerfectOf(p, i * wps), chosen, WindowLo(si), WindowHi(si, |p.keys|), Best(si, NoScore));
    Scan(ScoreOf(p, i * wps), PerfectOf(p, i * wps), chosen,
         WindowLo(si), WindowHi(si, |p.keys|), Best(si, NoScore))
  }

  /** Lines 331-341: a pick that ends on a bad word gives way to the nearest earlier fragment, down to `lo`, that ends well. */
  function Settle(p: Profile, b: int, lo: int): (r: int)
    requires Sized(p) && 0 <= b < |p.keys| && 0 <= lo
    ensures 0 <= r < |p.keys|
  {
    if EndsOnBadWord(p.keys[b]) then BackFrom(WellOf(p), b - 1, lo, b) else b
  }

  /**
   * The pick stands unless it ends on a bad word; then the nearest earlier
   * fragment from `lo` on that ends a sentence and not on a bad word replaces
   * it, if there is one.
   */
  lemma SettleSpec(p: Profile, b: int, lo: int)
    requires Sized(p) && 0 <= b < |p.keys| && 0 <= lo
    ensures var r := Settle(p, b, lo);
      if !EndsOnBadWord(p.keys[b]) then r == b
      else
        && (forall k :: r < k < b && lo <= k ==> !EndsWell(p.keys[k]))
        && (r == b || (lo <= r < b && EndsWell(p.keys[r])))
  {
    if EndsOnBadWord(p.keys[b]) {
      var ok := WellOf(p);
      BackFromNearest(ok, b - 1, lo, b);
      var r := BackFrom(ok, b - 1, lo, b);
      forall k | r < k < b && lo <= k ensures !EndsWell(p.keys[k]) {
        assert !ok(k);
      }
    }
  }

  /** The cut chosen for the `i`-th target, given the cuts chosen before. */
  function ChooseCut(p: Profile, wps: int, i: int, chosen: seq<int>): (r: int)
    requires Sized(p) && p.keys != []
    ensures 0 <= r < |p.keys|
  {
    Settle(p, Pick(p, wps, i, chosen).index, WindowLo(Anchor(p, wps, i)))
  }

  /** A perfect cut never ends on a bad word. */
  lemma PerfectEndsWell(p: Profile, target: int, j: int)
    requires Sized(p) && 0 <= j < |p.keys|
    requires Perfect(p, target, j)
    ensures EndsWell(p.keys[j])
  {
  }

  /** When the window holds a cut not chosen before that is perfect, the first such is the cut. */
  lemma ChooseCutPerfect(p: Profile, wps: int, i: int, chosen: seq<int>, c: int)
    requires Sized(p) && p.keys != []
    requires Open(chosen, WindowLo(Anchor(p, wps, i)), WindowHi(Anchor(p, wps, i), |p.keys|), c)
    requires Perfect(p, i * wps, c)
    requires forall k :: WindowLo(Anchor(p, wps, i)) <= k < c && k !in chosen ==> !Perfect(p, i * wps, k)
    ensures ChooseCut(p, wps, i, chosen) == c
  {
    var si := Anchor(p, wps, i);
    var lo, hi := WindowLo(si), WindowHi(si, |p.keys|);
    var score, perfect := ScoreOf(p, i * wps), PerfectOf(p, i * wps);
    ScanFindsPerfect(score, perfect, chosen, lo, hi, Best(si, NoScore), c);
    PerfectEndsWell(p, i * wps, c);
  }

  /**
   * Without a perfect cut in the window, the candidate loop settles on the
   * first cut not chosen before of the highest score, provided it beats the
   * initial score, and otherwise on the anchor.
   */
  lemma PickBest(p: Profile, wps: int, i: int, chosen: seq<int>)
    requires Sized(p) && p.keys != []
    requires forall k :: Open(chosen, WindowLo(Anchor(p, wps, i)), WindowHi(Anchor(p, wps, i), |p.keys|), k)
                         ==> !Perfect(p, i * wps, k)
    ensures var si := Anchor(p, wps, i);
      var lo, hi := WindowLo(si), WindowHi(si, |p.keys|);
      var b := Pick(p, wps, i, chosen);
      && (forall k :: Open(chosen, lo, hi, k) ==> Score(p, i * wps, k) <= b.score)
      && (b == Best(si, NoScore)
          || (Open(chosen, lo, hi, b.index) && NoScore < b.score == Score(p, i * wps, b.index)
              && forall k :: Open(chosen, lo, hi, k) && k < b.index ==> Score(p, i * wps, k) < b.score))
  {
    var si := Anchor(p, wps, i);
    var lo, hi := WindowLo(si), WindowHi(si, |p.keys|);
    var score, perfect := ScoreOf(p, i * wps), PerfectOf(p, i * wps);
    ScanFindsBest(score, perfect, chosen, lo, hi, Best(si, NoScore));
  }

  /** The cuts chosen for targets `1 .. k`, in the order tried. */
  function CutsUpTo(p: Profile, wps: int, k: nat): (r: seq<int>)
    requires Sized(p) && p.keys != []
    ensures |r| == k
    ensures forall x :: 0 <= x < k ==> 0 <= r[x] < |p.keys|
  {
    if k == 0 then []
    else
      var c := CutsUpTo(p, wps, k - 1);
      c + [ChooseCut(p, wps, k, c)]
  }

  // ---------------------------------------------------------------------------
  // Sorting the cuts and slicing

  predicate Increasing(s: seq<int>) {
    forall i, j :: 0 <= i < j < |s| ==> s[i] < s[j]
  }

  function Elems(s: seq<int>): set<int> {
    set x | x in s
  }

  function InsertUnique(x: int, s: seq<int>): (r: seq<int>)
    decreases |s|
  {
    if s == [] then [x]
    else if x < s[0] then [x] + s
    else if x == s[0] then s
    else [s[0]] + InsertUnique(x, s[1..])
  }

  /** Inserting into a strictly increasing sequence keeps it so and adds exactly `x`. */
  lemma {:induction false} InsertUniqueSpec(x: int, s: seq<int>)
    requires Increasing(s)
    ensures Increasing(InsertUnique(x, s)) && Elems(InsertUnique(x, s)) == Elems(s) + {x}
    decreases |s|
  {
    if s != [] && x > s[0] {
      assert Increasing(s[1..]);
      InsertUniqueSpec(x, s[1..]);
      InsertPastHead(x, s, InsertUnique(x, s[1..]));
    } else if s != [] && x < s[0] {
      assert Elems([x] + s) == {x} + Elems(s);
    }
  }

  lemma InsertPastHead(x: int, s: seq<int>, t: seq<int>)
    requires Increasing(s) && s != [] && x > s[0]
    requires Increasing(t) && Elems(t) == Elems(s[1..]) + {x}
    ensures Increasing([s[0]] + t) && Elems([s[0]] + t) == Elems(s) + {x}
  {
    assert Elems(s) == {s[0]} + Elems(s[1..]);
    forall k | 0 <= k < |t| ensures s[0] < t[k] {
      assert t[k] in Elems(t);
    }
    ConsIncreasing(s[0], t);
    assert Elems([s[0]] + t) == {s[0]} + Elems(t);
  }

  lemma ConsIncreasing(h: int, t: seq<int>)
    requires Increasing(t) && forall k :: 0 <= k < |t| ==> h < t[k]
    ensures Increasing([h] + t)
  {
    var r := [h] + t;
    forall i, j | 0 <= i < j < |r| ensures r[i] < r[j] {
      assert r[j] == t[j - 1];
      if i > 0 {
        assert r[i] == t[i - 1];
      }
    }
  }

  /** `sorted(list(set(xs)))` */
  function SortedUnique(xs: seq<int>): (r: seq<int>)
    ensures Increasing(r) && Elems(r) == Elems(xs)
    decreases |xs|
  {
    if xs == [] then []
    else
      var init := xs[..|xs| - 1];
      assert xs == init + [Last(xs)];
      assert Elems(xs) == Elems(init) + {Last(xs)};
      InsertUniqueSpec(Last(xs), SortedUnique(init));
      InsertUnique(Last(xs), SortedUnique(init))
  }

  /** The cuts all lie in `[lo, n)`. */
  predicate CutsWithin(cuts: seq<int>, lo: int, n: int) {
    forall k :: 0 <= k < |cuts| ==> lo <= cuts[k] < n
  }

  /** The chunk loop: from `prev`, one chunk up to and including each cut, then the rest if any. */
  function Pieces(segs: seq<Seg>, cuts: seq<int>, prev: int): seq<seq<Seg>>
    requires 0 <= prev <= |segs| && Increasing(cuts) && CutsWithin(cuts, prev, |segs|)
    decreases |cuts|
  {
    if cuts == [] then (if prev < |segs| then [segs[prev..]] else [])
    else [segs[prev..cuts[0] + 1]] + Pieces(segs, cuts[1..], cuts[0] + 1)
  }

  /**
   * The chunks are the fragments from `prev` on, in order, in non-empty
   * pieces: one per cut, plus one exactly when fragments remain after the
   * last cut.
   */
  lemma {:induction false} PiecesCover(segs: seq<Seg>, cuts: seq<int>, prev: int)
    requires 0 <= prev <= |segs| && Increasing(cuts) && CutsWithin(cuts, prev, |segs|)
    ensures var p := Pieces(segs, cuts, prev);
      && Flatten(p) == segs[prev..]
      && (forall k :: 0 <= k < |p| ==> p[k] != [])
      && |cuts| <= |p| <= |cuts| + 1
      && (|p| == |cuts| + 1 <==> (if cuts == [] then prev else Last(cuts) + 1) < |segs|)
    decreases |cuts|
  {
    var p := Pieces(segs, cuts, prev);
    if cuts == [] {
      if prev < |segs| {
        assert Flatten(p) == segs[prev..] + Flatten([]);
      }
    } else {
      var c := cuts[0];
      var rest := Pieces(segs, cuts[1..], c + 1);
      assert Increasing(cuts[1..]);
      assert CutsWithin(cuts[1..], c + 1, |segs|);
      PiecesCover(segs, cuts[1..], c + 1);
      assert p == [segs[prev..c + 1]] + rest;
      FlattenConcat([segs[prev..c + 1]], rest);
      assert Flatten([segs[prev..c + 1]]) == segs[prev..c + 1] + Flatten([]);
      assert segs[prev..c + 1] + segs[c + 1..] == segs[prev..];
      if |cuts| > 1 {
        assert Last(cuts[1..]) == Last(cuts);
      }
    }
  }

  /** The `k`-th chunk ends with the fragment of the `k`-th cut. */
  lemma {:induction false} PiecesEnds(segs: seq<Seg>, cuts: seq<int>, prev: int)
    requires 0 <= prev <= |segs| && Increasing(cuts) && CutsWithin(cuts, prev, |segs|)
    ensures var p := Pieces(segs, cuts, prev);
      |cuts| <= |p| && forall k :: 0 <= k < |cuts| ==> p[k] != [] && Last(p[k]) == segs[cuts[k]]
    decreases |cuts|
  {
    if cuts != [] {
      var p := Pieces(segs, cuts, prev);
      var c := cuts[0];
      var rest := Pieces(segs, cuts[1..], c + 1);
      assert Increasing(cuts[1..]);
      assert CutsWithin(cuts[1..], c + 1, |segs|);
      PiecesEnds(segs, cuts[1..], c + 1);
      assert p == [segs[prev..c + 1]] + rest;
      forall k | 0 <= k < |cuts| ensures p[k] != [] && Last(p[k]) == segs[cuts[k]] {
        if k > 0 {
          assert p[k] == rest[k - 1] && cuts[k] == cuts[1..][k - 1];
        }
      }
    }
  }

  // ---------------------------------------------------------------------------
  // The whole split

  /** `words_per_segment`: the even share of the words, with floor division. */
  function WordsPerChunk(segs: seq<Seg>, num: int): int
    requires num > 0
  {
    WordCount(TranscriptText(segs)) / num
  }

  /** The cuts for targets `1 .. num - 1`, without repeats, in increasing order. */
  function CutPoints(segs: seq<Seg>, num: int): (cuts: seq<int>)
    requires num > 1 && |segs| > num
    ensures Increasing(cuts) && CutsWithin(cuts, 0, |segs|)
    ensures Elems(cuts) == Elems(CutsUpTo(ProfileOf(segs), WordsPerChunk(segs, num), num - 1))
  {
    var raw := CutsUpTo(ProfileOf(segs), WordsPerChunk(segs, num), num - 1);
    CutsInRange(SortedUnique(raw), |segs|, raw);
    SortedUnique(raw)
  }

  /** What `split_asr_data(segs, num)` returns, as lists of fragments; `None` for the division by zero. */
  function SplitChunks(segs: seq<Seg>, num: int): Option<seq<seq<Seg>>> {
    if num == 0 then None
    else if num <= 1 || |segs| <= num then Some([segs])
    else Some(Pieces(segs, CutPoints(segs, num), 0))
  }

  lemma CutsInRange(cuts: seq<int>, n: int, raw: seq<int>)
    requires Elems(cuts) == Elems(raw) && forall x :: 0 <= x < |raw| ==> 0 <= raw[x] < n
    ensures CutsWithin(cuts, 0, n)
  {
    forall k | 0 <= k < |cuts| ensures 0 <= cuts[k] < n {
      assert cuts[k] in Elems(raw);
    }
  }

  /**
   * `split_asr_data` fails only on zero chunks; with one chunk or no more
   * fragments than chunks it returns the whole; otherwise it returns at most
   * `num` non-empty chunks that are the fragments in order, the `k`-th ending
   * at the `k`-th cut point, with one more chunk exactly when fragments remain
   * after the last cut.
   */
  lemma SplitChunksSpec(segs: seq<Seg>, num: int)
    ensures SplitChunks(segs, num).None? <==> num == 0
    ensures num != 0 && (num <= 1 || |segs| <= num) ==> SplitChunks(segs, num) == Some([segs])
    ensures num > 1 && |segs| > num ==>
      var chunks, cuts := SplitChunks(segs, num).value, CutPoints(segs, num);
      && Flatten(chunks) == segs
      && 1 <= |chunks| <= num
      && (forall k :: 0 <= k < |chunks| ==> chunks[k] != [])
      && |cuts| <= |chunks|
      && (|chunks| == |cuts| + 1 <==> cuts == [] || Last(cuts) < |segs| - 1)
      && (forall k :: 0 <= k < |cuts| ==> Last(chunks[k]) == segs[cuts[k]])
  {
    if num > 1 && |segs| > num {
      var raw := CutsUpTo(ProfileOf(segs), WordsPerChunk(segs, num), num - 1);
      var cuts := CutPoints(segs, num);
      PiecesCover(segs, cuts, 0);
      PiecesEnds(segs, cuts, 0);
      UniqueNoLonger(cuts, raw);
    }
  }

  /** A strictly increasing sequence has no more elements than any sequence with the same elements. */
  lemma UniqueNoLonger(cuts: seq<int>, raw: seq<int>)
    requires Increasing(cuts) && Elems(cuts) == Elems(raw)
    ensures |cuts| <= |raw|
  {
    DistinctCard(cuts);
    ElemsCard(raw);
  }

  lemma {:induction false} DistinctCard(s: seq<int>)
    requires Increasing(s)
    ensures |Elems(s)| == |s|
  {
    if s != [] {
      var init := s[..|s| - 1];
      assert Increasing(init);
      DistinctCard(init);
      assert s == init + [Last(s)];
      assert Elems(s) == Elems(init) + {Last(s)};
      assert Last(s) !in Elems(init);
    }
  }

  lemma {:induction false} ElemsCard(s: seq<int>)
    ensures |Elems(s)| <= |s|
  {
    if s != [] {
      var init := s[..|s| - 1];
      ElemsCard(init);
      assert s == init + [Last(s)];
      assert Elems(s) == Elems(init) + {Last(s)};
    }
  }

  // ---------------------------------------------------------------------------
  // The loops of split_asr_data

  /** The running word totals, accumulated fragment by fragment (lines 250-255). */
  method CumulativeCounts(segs: seq<Seg>) returns (cum: seq<int>)
    ensures cum == PrefixSums(Counts(segs))
  {
    cum := [0];
    var i := 0;
    while i < |segs|
      invariant 0 <= i <= |segs|
      invariant cum == PrefixSums(Counts(segs)[..i])
    {
      var words := CountWords(segs[i].text);
      assert Counts(segs)[..i + 1][..i] == Counts(segs)[..i];
      cum := cum + [Last(cum) + words];
      i := i + 1;
    }
    assert Counts(segs)[..|segs|] == Counts(segs);
  }

  /** The running totals together with each fragment's key and following pause. */
  method BuildProfile(segs: seq<Seg>) returns (p: Profile)
    ensures p == ProfileOf(segs)
  {
    var cum := CumulativeCounts(segs);
    p := Profile(seq(|segs|, j requires 0 <= j < |segs| => Key(segs[j])),
                 seq(|segs|, j requires 0 <= j < |segs| => PauseAfter(segs, j)),
                 cum);
  }

  /** The search for the fragment that reaches the target (lines 269-273). */
  method FindAnchor(cum: seq<int>, target: int, n: int) returns (si: int)
    requires 0 <= n && |cum| == n + 1
    ensures si == ReachIndex(cum, target, 0, n)
  {
    si := 0;
    var j := 0;
    while j < n
      invariant 0 <= j <= n
      invariant ReachIndex(cum, target, 0, n) == ReachIndex(cum, target, j, n)
    {
      if cum[j + 1] >= target {
        si := j;
        break;
      }
      j := j + 1;
    }
  }

  /** The marker loop of lines 292-296. */
  method FindSentenceMark(t: string) returns (found: bool)
    ensures found == EndsSentence(t)
  {
    found := false;
    var m := 0;
    while m < |SentenceMarks|
      invariant 0 <= m <= |SentenceMarks|
      invariant forall k :: 0 <= k < m ==> SentenceMarks[k] !in t
    {
      if SentenceMarks[m] in t {
        found := true;
        break;
      }
      m := m + 1;
    }
  }

  /** The bad-word loop of lines 299-303. */
  method FindBadEnding(t: string) returns (found: bool)
    ensures found == EndsBadly(t)
  {
    found := false;
    var w := 0;
    while w < |BadEndWords|
      invariant 0 <= w <= |BadEndWords|
      invariant forall k :: 0 <= k < w ==> !EndsWith(t, BadEndWords[k]) && !EndsWith(t, BadEndWords[k] + " ")
    {
      if EndsWith(t, BadEndWords[w]) || EndsWith(t, BadEndWords[w] + " ") {
        found := true;
        break;
      }
      w := w + 1;
    }
  }

  /** The body of the candidate loop (lines 288-316): the score of cutting after `j`, and whether it is perfect. */
  method Rate(p: Profile, target: int, j: int) returns (score: int, perfect: bool)
    requires Sized(p) && 0 <= j < |p.keys|
    ensures score == Score(p, target, j) && perfect == Perfect(p, target, j)
  {
    var t := p.keys[j];
    var sentence := FindSentenceMark(t);
    var bad := FindBadEnding(t);
    var d: int := Abs(p.cum[j + 1] - target);
    score := -10 * d;
    if sentence {
      score := score + 10000;
    }
    if bad {
      score := score - 20000;
    }
    score := score + p.pauses[j];
    perfect := sentence && !bad && d < 100;
  }

  /** The candidate loop of lines 284-324. */
  method ScanWindow(p: Profile, target: int, chosen: seq<int>, lo: int, hi: int, si: int) returns (best: int)
    requires Sized(p) && 0 <= lo <= hi + 1 && hi < |p.keys|
    ensures best == Scan(ScoreOf(p, target), PerfectOf(p, target), chosen, lo, hi, Best(si, NoScore)).index
  {
    ghost var score, perfect := ScoreOf(p, target), PerfectOf(p, target);
    best := si;
    var bestScore := NoScore;
    var j := lo;
    while j <= hi
      invariant lo <= j <= hi + 1
      invariant Scan(score, perfect, chosen, lo, hi, Best(si, NoScore)) == Scan(score, perfect, chosen, j, hi, Best(best, bestScore))
      decreases hi + 1 - j
    {
      if j in chosen {
        j := j + 1;
        continue;
      }
      var s, isPerfect := Rate(p, target, j);
      if s > bestScore {
        best, bestScore := j, s;
      }
      if isPerfect {
        best := j;
        break;
      }
      j := j + 1;
    }
  }

  /** The backward search of lines 335-341. */
  method SnapBackward(p: Profile, b: int, lo: int) returns (r: int)
    requires Sized(p) && 0 <= lo && b < |p.keys|
    ensures r == BackFrom(WellOf(p), b - 1, lo, b)
  {
    r := b;
    var j := b - 1;
    while j >= lo
      invariant j <= b - 1
      invariant BackFrom(WellOf(p), b - 1, lo, b) == BackFrom(WellOf(p), j, lo, b)
      decreases j + 1 - lo
    {
      var t := p.keys[j];
      if EndsSentence(t) && !EndsOnBadWord(t) {
        r := j;
        break;
      }
      j := j - 1;
    }
  }

  /** One pass of the outer loop (lines 265-343): the cut for the `i`-th target. */
  method ChooseCutPoint(p: Profile, wps: int, i: int, chosen: seq<int>) returns (r: int)
    requires Sized(p) && p.keys != []
    ensures r == ChooseCut(p, wps, i, chosen)
  {
    var n := |p.keys|;
    var target := i * wps;
    var si := FindAnchor(p.cum, target, n);
    var lo, hi := Max(0, si - SearchRange), Min(n - 1, si + SearchRange);
    assert si == Anchor(p, wps, i) && lo == WindowLo(si) && hi == WindowHi(si, n);
    var b := ScanWindow(p, target, chosen, lo, hi, si);
    assert b == Pick(p, wps, i, chosen).index;
    r := b;
    if EndsOnBadWord(p.keys[b]) {
      r := SnapBackward(p, b, lo);
    }
    assert r == Settle(p, b, lo);
  }

  /** The slicing loop of lines 349-359. */
  method SliceAt(segs: seq<Seg>, cuts: seq<int>) returns (parts: seq<seq<Seg>>)
    requires Increasing(cuts) && CutsWithin(cuts, 0, |segs|)
    ensures parts == Pieces(segs, cuts, 0)
  {
    parts := [];
    var prev := 0;
    var k := 0;
    while k < |cuts|
      invariant 0 <= k <= |cuts| && 0 <= prev <= |segs|
      invariant Increasing(cuts[k..]) && CutsWithin(cuts[k..], prev, |segs|)
      invariant parts + Pieces(segs, cuts[k..], prev) == Pieces(segs, cuts, 0)
    {
      SliceStep(segs, cuts, k, prev);
      ghost var rest := Pieces(segs, cuts[k + 1..], cuts[k] + 1);
      var part := segs[prev..cuts[k] + 1];
      assert (parts + [part]) + rest == parts + ([part] + rest);
      parts := parts + [part];
      prev := cuts[k] + 1;
      k := k + 1;
    }
    if prev < |segs| {
      parts := parts + [segs[prev..]];
    }
  }

  /** The chunk loop's `k`-th pass takes one piece off the front. */
  lemma SliceStep(segs: seq<Seg>, cuts: seq<int>, k: int, prev: int)
    requires 0 <= k < |cuts| && 0 <= prev <= |segs|
    requires Increasing(cuts[k..]) && CutsWithin(cuts[k..], prev, |segs|)
    ensures Increasing(cuts[k + 1..]) && CutsWithin(cuts[k + 1..], cuts[k] + 1, |segs|)
    ensures Pieces(segs, cuts[k..], prev) == [segs[prev..cuts[k] + 1]] + Pieces(segs, cuts[k + 1..], cuts[k] + 1)
  {
    assert cuts[k..][1..] == cuts[k + 1..];
    assert cuts[k..][0] == cuts[k];
  }

  /** The outer loop of lines 265-343: one cut per target `1 .. num - 1`. */
  method ChooseCuts(p: Profile, wps: int, num: int) returns (chosen: seq<int>)
    requires Sized(p) && p.keys != [] && num >= 1
    ensures chosen == CutsUpTo(p, wps, num - 1)
  {
    chosen := [];
    var i := 1;
    while i < num
      invariant 1 <= i <= num
      invariant chosen == CutsUpTo(p, wps, i - 1)
    {
      var c := ChooseCutPoint(p, wps, i, chosen);
      chosen := chosen + [c];
      i := i + 1;
    }
  }

  /** `split_asr_data(segs, num)`: the loops above in the order of the source. */
  method SplitAsrData(segs: seq<Seg>, num: int) returns (r: Option<seq<seq<Seg>>>)
    ensures r == SplitChunks(segs, num)
  {
    if num == 0 {
      return None;
    }
    var total := CountWords(TranscriptText(segs));
    if num <= 1 || |segs| <= num {
      return Some([segs]);
    }
    var wps := total / num;
    assert wps == WordsPerChunk(segs, num);
    var p := BuildProfile(segs);
    var chosen := ChooseCuts(p, wps, num);
    var cuts := SortedUnique(chosen);
    assert cuts == CutPoints(segs, num);
    var parts := SliceAt(segs, cuts);
    r := Some(parts);
  }

  // ---------------------------------------------------------------------------
  // determine_num_segments

  /**
   * `determine_num_segments(wordCount, threshold)`: chunks of `threshold`
   * words, rounded up, at least one; `None` for the division by zero.
   */
  function NumSegments(wordCount: int, threshold: int): Option<int> {
    if threshold == 0 then None
    else
      var n := FloorDiv(wordCount, threshold);
      var n' := if FloorMod(wordCount, threshold) > 0 then n + 1 else n;
      Some(Max(1, n'))
  }

  /**
   * With a positive threshold, a positive count needs the fewest chunks of
   * `threshold` words that hold it, and any other count one chunk.
   */
  lemma NumSegmentsSpec(wordCount: int, threshold: int)
    ensures NumSegments(wordCount, threshold).None? <==> threshold == 0
    ensures NumSegments(wordCount, threshold).Some? ==> NumSegments(wordCount, threshold).value >= 1
    ensures threshold > 0 && wordCount > 0 ==>
      var r := NumSegments(wordCount, threshold).value;
      (r - 1) * threshold < wordCount <= r * threshold
    ensures threshold > 0 && wordCount <= 0 ==> NumSegments(wordCount, threshold) == Some(1)
  {
    if threshold > 0 {
      var q, m := FloorDiv(wordCount, threshold), FloorMod(wordCount, threshold);
      CeilingBounds(wordCount, threshold, q, m);
    }
  }

  /** The arithmetic behind the rounding up, for `w == t * q + m` with `0 <= m < t`. */
  lemma CeilingBounds(w: int, t: int, q: int, m: int)
    requires t > 0 && 0 <= m < t && w == t * q + m
    ensures w > 0 ==> var r := if m > 0 then q + 1 else q; r >= 1 && (r - 1) * t < w <= r * t
    ensures w <= 0 ==> q <= 0
  {
    if q <= -1 {
      MulBelow(t, q);
    } else if q >= 1 {
      MulAbove(t, q);
    }
    assert (q + 1) * t == t * q + t;
    assert (q - 1) * t == t * q - t;
  }

  lemma {:induction false} MulBelow(t: int, q: int)
    requires t > 0 && q <= -1
    ensures t * q <= -t
    decreases -q
  {
    if q < -1 {
      MulBelow(t, q + 1);
      assert t * q == t * (q + 1) - t;
    }
  }

  lemma {:induction false} MulAbove(t: int, q: int)
    requires t > 0 && q >= 1
    ensures t * q >= t
    decreases q
  {
    if q > 1 {
      MulAbove(t, q - 1);
      assert t * q == t * (q - 1) + t;
    }
  }
}
