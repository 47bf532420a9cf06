/**
 * The subtitle container `ASRData`: a list of segments that the constructor
 * cleans (blank texts dropped, stably sorted by start time), its exports to
 * plain text, SRT and the JSON form, its two in-place merges, and `from_srt`.
 */
module AsrTranscript {
  import opened Strings
  import opened Segments
  import SrtCodec

  // ---------------------------------------------------------------------------
  // The constructor

  /** `seg.text and seg.text.strip()`: the text has a character that is not whitespace. */
  predicate NonBlank(s: Seg) {
    s.text != [] && Strip(s.text) != []
  }

  /** The segments the constructor keeps: the non-blank ones, stably sorted by start time. */
  function Cleaned(segs: seq<Seg>): seq<Seg> {
    SortByStart(Filter(segs, NonBlank))
  }

  /**
   * The constructor keeps exactly the non-blank segments, each as often as it
   * occurs, in start-time order, and segments with equal start times in their
   * input order.
   */
  lemma CleanedSpec(segs: seq<Seg>)
    ensures SortedByStart(Cleaned(segs))
    ensures multiset(Cleaned(segs)) == multiset(Filter(segs, NonBlank))
    ensures forall x :: x in Cleaned(segs) <==> x in segs && NonBlank(x)
    ensures forall t :: WithStart(Cleaned(segs), t) == WithStart(Filter(segs, NonBlank), t)
  {
    var kept := Filter(segs, NonBlank);
    SortByStartPermutes(kept);
    forall x ensures x in Cleaned(segs) <==> x in segs && NonBlank(x) {
      FilterMembers(segs, NonBlank, x);
      assert x in Cleaned(segs) <==> x in multiset(Cleaned(segs));
      assert x in kept <==> x in multiset(kept);
    }
    forall t ensures WithStart(Cleaned(segs), t) == WithStart(kept, t) {
      SortByStartStable(kept, t);
    }
  }

  /** Segments that are already sorted and non-blank come through the constructor unchanged. */
  lemma CleanedIdentity(segs: seq<Seg>)
    requires SortedByStart(segs) && forall k :: 0 <= k < |segs| ==> NonBlank(segs[k])
    ensures Cleaned(segs) == segs
  {
    FilterKeepsAll(segs, NonBlank);
    SortSortedIdentity(segs);
  }

  // ---------------------------------------------------------------------------
  // is_word_timestamp

  /** Line 65: the stripped text is one ASCII token, or at most four characters. */
  predicate WordLike(s: Seg) {
    var text := Strip(s.text);
    (|Words(text)| == 1 && IsAscii(text)) || |Strip(text)| <= 4
  }

  /** Lines 57-68: at least four in five segments are word-like; `valid / total >= 0.8` in integers. */
  predicate WordTimestamped(segs: seq<Seg>) {
    segs != [] && 5 * |Filter(segs, WordLike)| >= 4 * |segs|
  }

  /** With every segment word-like, a non-empty transcript has word timestamps. */
  lemma WordTimestampedAll(segs: seq<Seg>)
    requires segs != [] && forall k :: 0 <= k < |segs| ==> WordLike(segs[k])
    ensures WordTimestamped(segs)
  {
    FilterKeepsAll(segs, WordLike);
  }

  /** The test in terms of the positions of the word-like segments. */
  lemma WordTimestampedCount(segs: seq<Seg>)
    ensures WordTimestamped(segs) <==> segs != [] && 5 * |Positions(segs, WordLike)| >= 4 * |segs|
  {
    FilterSize(segs, WordLike, |segs|);
    assert segs[..|segs|] == segs;
  }

  lemma FilterStep(segs: seq<Seg>, p: Seg -> bool, i: int)
    requires 0 <= i < |segs|
    ensures |Filter(segs[..i + 1], p)| == |Filter(segs[..i], p)| + if p(segs[i]) then 1 else 0
  {
    TakeSnoc(segs, i);
    FilterAppend(segs[..i], segs[i], p);
  }

  /** The positions among the first `n` whose segment satisfies `p`. */
  function PositionsUpTo(segs: seq<Seg>, p: Seg -> bool, n: int): set<int>
    requires 0 <= n <= |segs|
  {
    set k | 0 <= k < n && p(segs[k])
  }

  /** The positions whose segment satisfies `p`. */
  function Positions(segs: seq<Seg>, p: Seg -> bool): set<int> {
    PositionsUpTo(segs, p, |segs|)
  }

  /** A filter keeps as many elements as there are positions satisfying the condition. */
  lemma {:induction false} FilterSize(segs: seq<Seg>, p: Seg -> bool, n: int)
    requires 0 <= n <= |segs|
    ensures |Filter(segs[..n], p)| == |PositionsUpTo(segs, p, n)|
    decreases n
  {
    if n == 0 {
      assert segs[..0] == [];
      assert PositionsUpTo(segs, p, 0) == {};
    } else {
      FilterSize(segs, p, n - 1);
      TakeSnoc(segs, n - 1);
      FilterAppend(segs[..n - 1], segs[n - 1], p);
      var before, after := PositionsUpTo(segs, p, n - 1), PositionsUpTo(segs, p, n);
      if p(segs[n - 1]) {
        assert after == before + {n - 1};
      } else {
        assert after == before;
      }
    }
  }

  // ---------------------------------------------------------------------------
  // to_json

  /** The first line feed at or after `i`, or `|s|`. */
  function FirstNewline(s: string, i: int): (k: int)
    requires 0 <= i <= |s|
    ensures i <= k <= |s| && (k < |s| ==> s[k] == '\n')
    ensures forall j :: i <= j < k ==> s[j] != '\n'
    decreases |s| - i
  {
    if i == |s| || s[i] == '\n' then i else FirstNewline(s, i + 1)
  }

  /** One value of the `to_json` dictionary. */
  datatype JsonEntry = JsonEntry(startTime: int, endTime: int, original: string, translated: string)

  /** Lines 97-100: split at the first line feed, or the whole text and "". */
  function SplitSubtitle(text: string): (string, string) {
    var i := FirstNewline(text, 0);
    if i < |text| then (text[..i], text[i + 1..]) else (text, "")
  }

  function EntryOf(s: Seg): JsonEntry {
    var (original, translated) := SplitSubtitle(s.text);
    JsonEntry(s.startTime, s.endTime, original, translated)
  }

  /** `to_json()`: its items in insertion order, keyed "1", "2", ... */
  function Json(segs: seq<Seg>): seq<(string, JsonEntry)> {
    seq(|segs|, k requires 0 <= k < |segs| => (NatToString(k + 1), EntryOf(segs[k])))
  }

  /** The first part of a split is the text up to the first line feed, and the parts give the text back. */
  lemma SplitSubtitleSpec(text: string)
    ensures var (original, translated) := SplitSubtitle(text);
      && '\n' !in original
      && ('\n' in text ==> text == original + "\n" + translated)
      && ('\n' !in text ==> original == text && translated == "")
  {
    var i := FirstNewline(text, 0);
    if i < |text| {
      assert text == text[..i] + "\n" + text[i + 1..];
    }
  }

  /**
   * The JSON form has one item per segment, keyed by its position counted from
   * one, with distinct keys, the times copied and the text split at its first
   * line feed.
   */
  lemma JsonSpec(segs: seq<Seg>)
    ensures |Json(segs)| == |segs|
    ensures forall k :: 0 <= k < |segs| ==> DecimalValue(Json(segs)[k].0) == k + 1
    ensures forall j, k :: 0 <= j < k < |segs| ==> Json(segs)[j].0 != Json(segs)[k].0
    ensures forall k :: 0 <= k < |segs| ==>
      Json(segs)[k].1.startTime == segs[k].startTime && Json(segs)[k].1.endTime == segs[k].endTime
    ensures forall k :: 0 <= k < |segs| ==> var e := Json(segs)[k].1;
      '\n' !in e.original
      && ('\n' in segs[k].text ==> segs[k].text == e.original + "\n" + e.translated)
      && ('\n' !in segs[k].text ==> e.original == segs[k].text && e.translated == "")
  {
    var js := Json(segs);
    forall k | 0 <= k < |segs| ensures DecimalValue(js[k].0) == k + 1 {
      DecimalOfNatToString(k + 1);
    }
    assert forall j, k :: 0 <= j < k < |segs| ==> js[j].0 != js[k].0;
    forall k | 0 <= k < |segs| ensures var e := js[k].1;
      '\n' !in e.original
      && ('\n' in segs[k].text ==> segs[k].text == e.original + "\n" + e.translated)
      && ('\n' !in segs[k].text ==> e.original == segs[k].text && e.translated == "")
    {
      SplitSubtitleSpec(segs[k].text);
    }
  }

  // ---------------------------------------------------------------------------
  // to_txt

  lemma TextsTail(segs: seq<Seg>)
    requires segs != []
    ensures Texts(segs)[1..] == Texts(segs[1..])
  {
  }

  /** The plain text has one line per segment when every text is one non-empty line. */
  lemma {:induction false} TxtLines(segs: seq<Seg>)
    requires forall k :: 0 <= k < |segs| ==> segs[k].text != [] && SingleLine(segs[k].text)
    ensures Lines(TranscriptText(segs)) == Texts(segs)
    decreases |segs|
  {
    if |segs| == 1 {
      LinesSingle(segs[0].text);
    } else if |segs| > 1 {
      TextsTail(segs);
      TxtLines(segs[1..]);
      LinesCons(segs[0].text, TranscriptText(segs[1..]));
    }
  }

  // ---------------------------------------------------------------------------
  // merge_segments and merge_with_next_segment on a list

  lemma TextsAppend(a: seq<Seg>, b: seq<Seg>)
    ensures Texts(a + b) == Texts(a) + Texts(b)
  {
  }

  lemma {:induction false} ConcatAppend(xs: seq<string>, ys: seq<string>)
    ensures Concat(xs + ys) == Concat(xs) + Concat(ys)
    decreases |xs|
  {
    if xs == [] {
      assert xs + ys == ys;
    } else {
      assert (xs + ys)[0] == xs[0] && (xs + ys)[1..] == xs[1..] + ys;
      ConcatAppend(xs[1..], ys);
    }
  }

  /** The segment that replaces `segs[s..e + 1]`: the given text or the texts joined with nothing. */
  function Merged(segs: seq<Seg>, s: int, e: int, mergedText: Option<string>): Seg
    requires 0 <= s <= e < |segs|
  {
    var text := if mergedText.Some? then mergedText.value else Concat(Texts(segs[s..e + 1]));
    Seg(text, segs[s].startTime, segs[e].endTime)
  }

  /** `merge_segments(s, e, merged_text)` on a list; None stands for the IndexError. */
  function MergeRange(segs: seq<Seg>, s: int, e: int, mergedText: Option<string>): (r: Option<seq<Seg>>)
    ensures r.None? <==> !(0 <= s <= e < |segs|)
    ensures r.Some? ==> |r.value| == |segs| - (e - s)
    ensures r.Some? ==> r.value[..s] == segs[..s] && r.value[s + 1..] == segs[e + 1..]
  {
    if s < 0 || e >= |segs| || s > e then None
    else
      var r := segs[..s] + [Merged(segs, s, e, mergedText)] + segs[e + 1..];
      assert r[..s] == segs[..s] && r[s + 1..] == segs[e + 1..];
      Some(r)
  }

  /**
   * The merged segment spans the first segment's start to the last one's end. Its text
   * is the given text, or by default the range's texts joined with ''.
   */
  lemma MergeRangeSpan(segs: seq<Seg>, s: int, e: int, mergedText: Option<string>)
    requires 0 <= s <= e < |segs|
    ensures var r := MergeRange(segs, s, e, mergedText).value;
      r[s].startTime == segs[s].startTime && r[s].endTime == segs[e].endTime
      && (mergedText.Some? ==> r[s].text == mergedText.value)
      && (mergedText.None? ==> r[s].text == Concat(Texts(segs[s..e + 1])))
  {
  }

  /** With the default text, merging keeps the concatenation of all texts. */
  lemma MergeRangeKeepsText(segs: seq<Seg>, s: int, e: int)
    requires 0 <= s <= e < |segs|
    ensures Concat(Texts(MergeRange(segs, s, e, None).value)) == Concat(Texts(segs))
  {
    var mid := Concat(Texts(segs[s..e + 1]));
    var r := MergeRange(segs, s, e, None).value;
    assert r == segs[..s] + [Merged(segs, s, e, None)] + segs[e + 1..];
    assert segs == segs[..s] + segs[s..e + 1] + segs[e + 1..];
    TextsAppend(segs[..s] + [Merged(segs, s, e, None)], segs[e + 1..]);
    TextsAppend(segs[..s], [Merged(segs, s, e, None)]);
    TextsAppend(segs[..s] + segs[s..e + 1], segs[e + 1..]);
    TextsAppend(segs[..s], segs[s..e + 1]);
    ConcatAppend(Texts(segs[..s]) + [mid], Texts(segs[e + 1..]));
    ConcatAppend(Texts(segs[..s]), [mid]);
    ConcatAppend(Texts(segs[..s]) + Texts(segs[s..e + 1]), Texts(segs[e + 1..]));
    ConcatAppend(Texts(segs[..s]), Texts(segs[s..e + 1]));
    assert Texts([Merged(segs, s, e, None)]) == [mid];
    assert Concat([mid]) == mid + Concat([]);
  }

  /** Merging a range keeps a transcript in start-time order. */
  lemma MergeRangeSorted(segs: seq<Seg>, s: int, e: int, mergedText: Option<string>)
    requires SortedByStart(segs) && 0 <= s <= e < |segs|
    ensures SortedByStart(MergeRange(segs, s, e, mergedText).value)
  {
    var r := MergeRange(segs, s, e, mergedText).value;
    forall i, j | 0 <= i < j < |r| ensures r[i].startTime <= r[j].startTime {
      assert r[i].startTime == (if i <= s then segs[i] else segs[i + e - s]).startTime;
      assert r[j].startTime == (if j <= s then segs[j] else segs[j + e - s]).startTime;
    }
  }

  /** `merge_with_next_segment(i)` on a list; None stands for the IndexError. */
  function MergeNext(segs: seq<Seg>, i: int): (r: Option<seq<Seg>>)
    ensures r.None? <==> !(0 <= i < |segs| - 1)
    ensures r.Some? ==> |r.value| == |segs| - 1
    ensures r.Some? ==> r.value[..i] == segs[..i] && r.value[i + 1..] == segs[i + 2..]
    ensures r.Some? ==> r.value[i] == Seg(segs[i].text + " " + segs[i + 1].text, segs[i].startTime, segs[i + 1].endTime)
  {
    if i < 0 || i >= |segs| - 1 then None
    else
      var merged := Seg(segs[i].text + " " + segs[i + 1].text, segs[i].startTime, segs[i + 1].endTime);
      var r := segs[i := merged];
      var out := r[..i + 1] + r[i + 2..];
      assert out[..i] == segs[..i] && out[i + 1..] == segs[i + 2..];
      Some(out)
  }

  /** Merging with the next segment is merging the pair with their texts joined by a space. */
  lemma MergeNextIsRange(segs: seq<Seg>, i: int)
    ensures MergeNext(segs, i)
      == MergeRange(segs, i, i + 1, if 0 <= i < |segs| - 1 then Some(segs[i].text + " " + segs[i + 1].text) else None)
  {
    if 0 <= i < |segs| - 1 {
      var a, b := MergeNext(segs, i).value, MergeRange(segs, i, i + 1, Some(segs[i].text + " " + segs[i + 1].text)).value;
      assert a == a[..i] + [a[i]] + a[i + 1..];
      assert b == b[..i] + [b[i]] + b[i + 1..];
    }
  }

  /** The merged text has the words of both segments, in order. */
  lemma MergeNextWords(segs: seq<Seg>, i: int)
    requires 0 <= i < |segs| - 1
    ensures Words(MergeNext(segs, i).value[i].text) == Words(segs[i].text) + Words(segs[i + 1].text)
  {
    WordsJoinSpace(segs[i].text, segs[i + 1].text);
  }

  /** Merging with the next segment keeps a transcript in start-time order. */
  lemma MergeNextSorted(segs: seq<Seg>, i: int)
    requires SortedByStart(segs) && 0 <= i < |segs| - 1
    ensures SortedByStart(MergeNext(segs, i).value)
  {
    MergeNextIsRange(segs, i);
    MergeRangeSorted(segs, i, i + 1, Some(segs[i].text + " " + segs[i + 1].text));
  }

  // ---------------------------------------------------------------------------
  // from_srt(to_srt())

  /** A segment the SRT round trip keeps is non-blank. */
  lemma ReadyNonBlank(s: Seg)
    requires SrtCodec.SrtReady(s)
    ensures NonBlank(s)
  {
    StripTrimmed(s.text);
  }

  /**
   * `from_srt(to_srt())` gives back the segments of a transcript that is sorted
   * by start time and whose texts are non-blank, trimmed and one line with
   * times below one hundred hours.
   */
  lemma FromSrtOfToSrt(segs: seq<Seg>)
    requires SortedByStart(segs)
    requires forall k :: 0 <= k < |segs| ==> SrtCodec.SrtReady(segs[k])
    ensures Cleaned(SrtCodec.ParseSrt(SrtCodec.ToSrt(segs))) == segs
  {
    SrtCodec.SrtRoundTrip(segs);
    forall k | 0 <= k < |segs| ensures NonBlank(segs[k]) {
      ReadyNonBlank(segs[k]);
    }
    CleanedIdentity(segs);
  }

  // ---------------------------------------------------------------------------
  // The container

  class AsrData {
    var segments: seq<Seg>

    /** The order the constructor establishes and both merges keep. */
    ghost predicate Valid()
      reads this
    {
      SortedByStart(segments)
    }

    /** `ASRData(segments)` (lines 33-37). */
    constructor(segs: seq<Seg>)
      ensures segments == Cleaned(segs) && Valid()
    {
      segments := Cleaned(segs);
      CleanedSpec(segs);
    }

    /** `from_srt(srt)` (lines 167-217). */
    static method FromSrt(srt: string) returns (d: AsrData)
      ensures fresh(d) && d.segments == Cleaned(SrtCodec.ParseSrt(srt)) && d.Valid()
    {
      var segs := SrtCodec.ReadSrt(srt);
      d := new AsrData(segs);
    }

    /** `is_word_timestamp()` (lines 49-68). */
    method IsWordTimestamp() returns (b: bool)
      ensures b == WordTimestamped(segments)
    {
      var segs := segments;
      if segs == [] {
        return false;
      }
      var valid := 0;
      for i := 0 to |segs|
        invariant valid == |Filter(segs[..i], WordLike)|
      {
        FilterStep(segs, WordLike, i);
        var text := Strip(segs[i].text);
        if (|Words(text)| == 1 && IsAscii(text)) || |Strip(text)| <= 4 {
          valid := valid + 1;
        }
      }
      assert segs[..|segs|] == segs;
      b := 5 * valid >= 4 * |segs|;
    }

    /** `to_txt()` (lines 78-80). */
    function ToTxt(): string
      reads this
    {
      TranscriptText(segments)
    }

    /** `to_srt()` without the file write (lines 82-92). */
    method ToSrt() returns (srt: string)
      ensures srt == SrtCodec.ToSrt(segments)
    {
      srt := SrtCodec.SrtText(segments);
    }

    /** `to_json()` (lines 94-109). */
    method ToJson() returns (items: seq<(string, JsonEntry)>)
      ensures items == Json(segments)
    {
      items := [];
      for i := 0 to |segments|
        invariant items == Json(segments)[..i]
      {
        var seg := segments[i];
        var original, translated;
        if '\n' in seg.text {
          var k := FirstNewline(seg.text, 0);
          original, translated := seg.text[..k], seg.text[k + 1..];
        } else {
          original, translated := seg.text, "";
        }
        assert (original, translated) == SplitSubtitle(seg.text);
        TakeSnoc(Json(segments), i);
        items := items + [(NatToString(i + 1), JsonEntry(seg.startTime, seg.endTime, original, translated))];
      }
    }

    /** `merge_segments(s, e, merged_text)` (lines 111-121); false stands for the IndexError. */
    method MergeSegments(s: int, e: int, mergedText: Option<string>) returns (ok: bool)
      modifies this
      ensures ok <==> 0 <= s <= e < |old(segments)|
      ensures MergeRange(old(segments), s, e, mergedText) == if ok then Some(segments) else None
      ensures !ok ==> segments == old(segments)
      ensures old(Valid()) ==> Valid()
    {
      if s < 0 || e >= |segments| || s > e {
        return false;
      }
      var start, end := segments[s].startTime, segments[e].endTime;
      var text := if mergedText.Some? then mergedText.value else Concat(Texts(segments[s..e + 1]));
      ghost var before := segments;
      segments := segments[..s] + [Seg(text, start, end)] + segments[e + 1..];
      ok := true;
      if SortedByStart(before) {
        MergeRangeSorted(before, s, e, mergedText);
      }
    }

    /** `merge_with_next_segment(i)` (lines 123-133); false stands for the IndexError. */
    method MergeWithNextSegment(i: int) returns (ok: bool)
      modifies this
      ensures ok <==> 0 <= i < |old(segments)| - 1
      ensures MergeNext(old(segments), i) == if ok then Some(segments) else None
      ensures !ok ==> segments == old(segments)
      ensures old(Valid()) ==> Valid()
    {
      if i < 0 || i >= |segments| - 1 {
        return false;
      }
      var current, next := segments[i], segments[i + 1];
      ghost var before := segments;
      segments := segments[i := Seg(current.text + " " + next.text, current.startTime, next.endTime)];
      segments := segments[..i + 1] + segments[i + 2..];
      ok := true;
      if SortedByStart(before) {
        MergeNextSorted(before, i);
      }
    }
  }
}
