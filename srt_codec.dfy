/**
 * The SRT text of a transcript (`ASRData.to_srt`, without the file write) and
 * the segment list `from_srt` reads out of such a text, before the `ASRData`
 * constructor filters and sorts it.
 */
module SrtCodec {
  import opened Strings
  import opened Segments
  import opened SrtTime

  // ---------------------------------------------------------------------------
  // to_srt

  /** One numbered entry without its final line break: number, time line, text. */
  function Entry(n: nat, s: Seg): string {
    NatToString(n) + "\n" + TimeRange(s) + "\n" + s.text
  }

  /** The entries of `to_srt`, numbered from 1, each ending with a line break. */
  function Entries(segs: seq<Seg>): (r: seq<string>)
    ensures |r| == |segs|
  {
    seq(|segs|, k requires 0 <= k < |segs| => Entry(k + 1, segs[k]) + "\n")
  }

  /** `to_srt()`: the entries joined by line breaks, so entries are separated by a blank line. */
  function ToSrt(segs: seq<Seg>): string {
    Join("\n", Entries(segs))
  }

  /** The loop of `to_srt` (lines 84-88). */
  method SrtText(segs: seq<Seg>) returns (srt: string)
    ensures srt == ToSrt(segs)
  {
    var lines: seq<string> := [];
    for n := 0 to |segs|
      invariant lines == Entries(segs)[..n]
    {
      EntriesSnoc(segs, n);
      lines := lines + [Entry(n + 1, segs[n]) + "\n"];
    }
    assert lines == Entries(segs);
    srt := Join("\n", lines);
  }

  lemma EntriesSnoc(segs: seq<Seg>, n: nat)
    requires n < |segs|
    ensures Entries(segs)[..n + 1] == Entries(segs)[..n] + [Entry(n + 1, segs[n]) + "\n"]
  {
    TakeSnoc(Entries(segs), n);
  }

  // ---------------------------------------------------------------------------
  // re.split(r'\n\s*\n', s)

  /** The end of the run of whitespace that starts at `j`. */
  function RunEnd(s: string, j: int): (e: int)
    requires 0 <= j <= |s|
    ensures j <= e <= |s| && (e == |s| || !IsSpace(s[e]))
    decreases |s| - j
  {
    if j < |s| && IsSpace(s[j]) then RunEnd(s, j + 1) else j
  }

  /** The last line feed in `s[j..e]`, or -1. */
  function LastNewline(s: string, j: int, e: int): (k: int)
    requires 0 <= j <= e <= |s|
    ensures k == -1 || (j <= k < e && s[k] == '\n')
    decreases e - j
  {
    if e == j then -1 else if s[e - 1] == '\n' then e - 1 else LastNewline(s, j, e - 1)
  }

  /**
   * Where the separator pattern matching at `i` ends, or -1 when it does not
   * match there: a line feed, then as much whitespace as possible up to and
   * including a line feed.
   */
  function SepEnd(s: string, i: int): (r: int)
    requires 0 <= i < |s|
    ensures r == -1 || i + 2 <= r <= |s|
  {
    if s[i] != '\n' then -1
    else
      var k := LastNewline(s, i + 1, RunEnd(s, i + 1));
      if k >= 0 then k + 1 else -1
  }

  /** The leftmost position from `i` on where the separator matches, or `|s|`. */
  function FirstSep(s: string, i: int): (r: int)
    requires 0 <= i <= |s|
    ensures i <= r <= |s| && (r < |s| ==> SepEnd(s, r) >= 0)
    decreases |s| - i
  {
    if i == |s| then |s| else if SepEnd(s, i) >= 0 then i else FirstSep(s, i + 1)
  }

  /** `re.split(r'\n\s*\n', s)`: the pieces between leftmost matches. */
  function SplitBlocks(s: string): (r: seq<string>)
    ensures |r| >= 1
    decreases |s|
  {
    var i := FirstSep(s, 0);
    if i == |s| then [s] else [s[..i]] + SplitBlocks(s[SepEnd(s, i)..])
  }

  // ---------------------------------------------------------------------------
  // from_srt

  /** How many of the blocks have exactly four lines. */
  function CountFour(blocks: seq<string>): nat {
    if blocks == [] then 0 else (if |Lines(blocks[0])| == 4 then 1 else 0) + CountFour(blocks[1..])
  }

  /** Lines 181-185: no block is longer than four lines and more than nine in ten have exactly four. */
  predicate Bilingual(blocks: seq<string>) {
    (forall k :: 0 <= k < |blocks| ==> |Lines(blocks[k])| <= 4) && 10 * CountFour(blocks) > 9 * |blocks|
  }

  /** One block: skipped unless it has three lines and a time line; the rest is the text. */
  function ParseBlock(block: string, bilingual: bool): Option<Seg> {
    var lines := Lines(block);
    if |lines| < 3 then None
    else
      match ParseTimeLine(lines[1])
      case None => None
      case Some((start, end)) =>
        var text := if bilingual then Strip(Join("\n", lines[2..])) else Join(" ", lines[2..]);
        Some(Seg(text, start, end))
  }

  /** The segment a parse result contributes: none or one. */
  function Found(o: Option<Seg>): (r: seq<Seg>)
    ensures o.Some? ==> r == [o.value]
    ensures o.None? ==> r == []
  {
    if o.Some? then [o.value] else []
  }

  /** The segments of the blocks that parse, in order. */
  function ParseBlocks(blocks: seq<string>, bilingual: bool): seq<Seg> {
    Collect(BlockParser(bilingual), blocks)
  }

  /** The block parser for one layout. */
  function BlockParser(bilingual: bool): string -> Option<Seg> {
    block => ParseBlock(block, bilingual)
  }

  /** What a parser finds in each of the blocks, in order. */
  function Collect(parse: string -> Option<Seg>, blocks: seq<string>): seq<Seg> {
    if blocks == [] then [] else Found(parse(blocks[0])) + Collect(parse, blocks[1..])
  }

  /** The segments `from_srt(srt)` hands to the `ASRData` constructor. */
  function ParseSrt(srt: string): seq<Seg> {
    var blocks := SplitBlocks(Strip(srt));
    ParseBlocks(blocks, Bilingual(blocks))
  }

  /** One pass of the block loop of `from_srt` (lines 194-215). */
  method ReadBlock(block: string, bilingual: bool) returns (seg: Option<Seg>)
    ensures seg == ParseBlock(block, bilingual)
  {
    var lines := Lines(block);
    if |lines| < 3 {
      return None;
    }
    var times := ParseTimeLine(lines[1]);
    if times.None? {
      return None;
    }
    var text := if bilingual then Strip(Join("\n", lines[2..])) else Join(" ", lines[2..]);
    seg := Some(Seg(text, times.value.0, times.value.1));
  }

  /** The block loop of `from_srt` (lines 187-215). */
  method ReadBlocks(blocks: seq<string>, bilingual: bool) returns (segs: seq<Seg>)
    ensures segs == ParseBlocks(blocks, bilingual)
  {
    segs := [];
    ghost var parse := BlockParser(bilingual);
    var k := 0;
    while k < |blocks|
      invariant 0 <= k <= |blocks|
      invariant Collect(parse, blocks) == segs + Collect(parse, blocks[k..])
    {
      var one := ReadBlock(blocks[k], bilingual);
      ParserApply(bilingual, blocks[k]);
      CollectPush(parse, blocks, k, segs, one);
      if one.Some? {
        segs := segs + [one.value];
      }
      k := k + 1;
    }
  }

  /** One step of the block loop: the block's segment moves from the unread part to the result. */
  lemma CollectPush(parse: string -> Option<Seg>, blocks: seq<string>, k: nat, segs: seq<Seg>, one: Option<Seg>)
    requires k < |blocks| && one == parse(blocks[k])
    requires Collect(parse, blocks) == segs + Collect(parse, blocks[k..])
    ensures Collect(parse, blocks) == (if one.Some? then segs + [one.value] else segs) + Collect(parse, blocks[k + 1..])
  {
    CollectStep(parse, blocks, k);
    Associative(segs, Found(one), Collect(parse, blocks[k + 1..]));
  }

  lemma ParserApply(bilingual: bool, block: string)
    ensures BlockParser(bilingual)(block) == ParseBlock(block, bilingual)
  {
  }

  lemma CollectStep(parse: string -> Option<Seg>, blocks: seq<string>, k: nat)
    requires k < |blocks|
    ensures Collect(parse, blocks[k..]) == Found(parse(blocks[k])) + Collect(parse, blocks[k + 1..])
  {
    assert blocks[k..][0] == blocks[k] && blocks[k..][1..] == blocks[k + 1..];
  }

  lemma Associative<T>(a: seq<T>, b: seq<T>, c: seq<T>)
    ensures a + (b + c) == (a + b) + c
  {
  }

  /** `from_srt` up to the constructor: split, decide the layout, read each block. */
  method ReadSrt(srt: string) returns (segs: seq<Seg>)
    ensures segs == ParseSrt(srt)
  {
    var blocks := SplitBlocks(Strip(srt));
    var bilingual := Bilingual(blocks);
    segs := ReadBlocks(blocks, bilingual);
  }

  // ---------------------------------------------------------------------------
  // The split of text that has no separator inside its blocks

  /** No separator match starts anywhere in `b`. */
  predicate NoSep(b: string) {
    forall i :: 0 <= i < |b| ==> SepEnd(b, i) == -1
  }

  /** A block the split gives back whole: non-empty, trimmed, no separator inside. */
  predicate Clean(b: string) {
    b != [] && Trimmed(b) && NoSep(b)
  }

  lemma {:induction false} RunEndPrefix(b: string, x: string, j: int)
    requires 0 <= j < |b| && !IsSpace(b[|b| - 1])
    ensures RunEnd(b + x, j) == RunEnd(b, j) < |b|
    decreases |b| - j
  {
    assert (b + x)[j] == b[j];
    if IsSpace(b[j]) {
      RunEndPrefix(b, x, j + 1);
    }
  }

  lemma {:induction false} LastNewlinePrefix(b: string, x: string, j: int, e: int)
    requires 0 <= j <= e <= |b|
    ensures LastNewline(b + x, j, e) == LastNewline(b, j, e)
    decreases e - j
  {
    if e > j {
      assert (b + x)[e - 1] == b[e - 1];
      LastNewlinePrefix(b, x, j, e - 1);
    }
  }

  /** Inside a trimmed string, what follows it does not change where separators match. */
  lemma SepEndPrefix(b: string, x: string, i: int)
    requires Trimmed(b) && 0 <= i < |b|
    ensures SepEnd(b + x, i) == SepEnd(b, i)
  {
    assert (b + x)[i] == b[i];
    if b[i] == '\n' {
      assert i + 1 < |b|;
      RunEndPrefix(b, x, i + 1);
      LastNewlinePrefix(b, x, i + 1, RunEnd(b, i + 1));
    }
  }

  lemma {:induction false} FirstSepAt(s: string, i: int, p: int)
    requires 0 <= i <= p < |s| && SepEnd(s, p) >= 0
    requires forall j :: i <= j < p ==> SepEnd(s, j) == -1
    ensures FirstSep(s, i) == p
    decreases p - i
  {
    if i < p {
      FirstSepAt(s, i + 1, p);
    }
  }

  lemma {:induction false} FirstSepNone(s: string, i: int)
    requires 0 <= i <= |s|
    requires forall j :: i <= j < |s| ==> SepEnd(s, j) == -1
    ensures FirstSep(s, i) == |s|
    decreases |s| - i
  {
    if i < |s| {
      FirstSepNone(s, i + 1);
    }
  }

  /** A blank line between two clean blocks is where the split cuts. */
  lemma SplitTwo(b: string, t: string)
    requires Clean(b) && t != [] && !IsSpace(t[0])
    ensures var s := b + "\n\n" + t;
      FirstSep(s, 0) == |b| && SepEnd(s, |b|) == |b| + 2 && s[..|b|] == b && s[|b| + 2..] == t
  {
    var s := b + "\n\n" + t;
    assert s == b + ("\n\n" + t);
    forall j | 0 <= j < |b| ensures SepEnd(s, j) == -1 {
      SepEndPrefix(b, "\n\n" + t, j);
    }
    assert s[|b|] == '\n' && s[|b| + 1] == '\n' && s[|b| + 2] == t[0];
    assert RunEnd(s, |b| + 2) == |b| + 2;
    assert RunEnd(s, |b| + 1) == |b| + 2;
    assert LastNewline(s, |b| + 1, |b| + 2) == |b| + 1;
    FirstSepAt(s, 0, |b|);
    assert s[|b| + 2..] == t;
  }

  /** A clean block followed by a blank line splits off whole. */
  lemma SplitCons(b: string, t: string)
    requires Clean(b) && t != [] && !IsSpace(t[0])
    ensures SplitBlocks(b + "\n\n" + t) == [b] + SplitBlocks(t)
  {
    SplitTwo(b, t);
  }

  /** A clean block on its own is not split. */
  lemma SplitOne(b: string)
    requires Clean(b)
    ensures SplitBlocks(b) == [b]
  {
    FirstSepNone(b, 0);
  }

  /** Clean blocks joined by blank lines split back into the same blocks. */
  lemma {:induction false} SplitJoin(bs: seq<string>)
    requires bs != [] && forall k :: 0 <= k < |bs| ==> Clean(bs[k])
    ensures SplitBlocks(Join("\n\n", bs)) == bs
    decreases |bs|
  {
    assert Clean(bs[0]);
    if |bs| == 1 {
      SplitOne(bs[0]);
    } else {
      var t := Join("\n\n", bs[1..]);
      assert Join("\n\n", bs) == bs[0] + "\n\n" + t;
      assert Clean(bs[1]);
      JoinHead(bs[1..]);
      SplitCons(bs[0], t);
      SplitJoin(bs[1..]);
    }
  }

  /** A join of clean blocks starts with the first block's first character. */
  lemma JoinHead(bs: seq<string>)
    requires bs != [] && bs[0] != []
    ensures var t := Join("\n\n", bs); t != [] && t[0] == bs[0][0]
  {
  }

  // ---------------------------------------------------------------------------
  // The round trip

  /** What `from_srt(to_srt())` needs of a segment: a non-blank, trimmed, single-line text and times below 100 h. */
  predicate SrtReady(s: Seg) {
    s.text != [] && Trimmed(s.text) && SingleLine(s.text)
    && 0 <= s.startTime < 360000000 && 0 <= s.endTime < 360000000
  }

  /** Entries with their final line break joined by line breaks are the entries joined by blank lines, plus one line break. */
  lemma {:induction false} JoinNewlines(cores: seq<string>, lines: seq<string>)
    requires cores != [] && |lines| == |cores|
    requires forall k :: 0 <= k < |cores| ==> lines[k] == cores[k] + "\n"
    ensures Join("\n", lines) == Join("\n\n", cores) + "\n"
    decreases |cores|
  {
    if |cores| > 1 {
      JoinNewlines(cores[1..], lines[1..]);
      assert Join("\n", lines) == (cores[0] + "\n") + "\n" + (Join("\n\n", cores[1..]) + "\n");
    }
  }

  /** The entries without their final line break. */
  function Cores(segs: seq<Seg>): (r: seq<string>)
    ensures |r| == |segs|
  {
    seq(|segs|, k requires 0 <= k < |segs| => Entry(k + 1, segs[k]))
  }

  /** `strip()` drops the one line break after the last entry. */
  lemma StripTrailingBreak(x: string)
    requires x != [] && Trimmed(x)
    ensures Strip(x + "\n") == x
  {
    var y := x + "\n";
    assert y[0] == x[0];
    assert StripStart(y) == y;
    assert y[..|y| - 1] == x;
    assert StripEnd(y) == StripEnd(x);
  }

  /** No character of a zero-padded number is whitespace or a line break. */
  lemma ZeroPadPlain(n: int, w: nat)
    ensures var r := ZeroPad(n, w); r != [] && forall i :: 0 <= i < |r| ==> IsDigit(r[i]) || r[i] == '-'
  {
  }

  /** A stamp is one line and starts with a digit or a sign. */
  lemma FormatTimePlain(ms: int)
    ensures var r := FormatTime(ms); r != [] && SingleLine(r) && !IsSpace(r[0])
  {
    var c := ToClock(ms);
    ZeroPadPlain(c.hours, 2);
    ZeroPadPlain(c.minutes, 2);
    ZeroPadPlain(c.seconds, 2);
    ZeroPadPlain(c.millis, 3);
  }

  lemma TimeRangePlain(s: Seg)
    ensures var r := TimeRange(s); r != [] && SingleLine(r) && !IsSpace(r[0])
  {
    FormatTimePlain(s.startTime);
    FormatTimePlain(s.endTime);
    ArrowPlain(FormatTime(s.startTime), FormatTime(s.endTime));
  }

  lemma ArrowPlain(a: string, b: string)
    requires a != [] && SingleLine(a) && !IsSpace(a[0]) && SingleLine(b)
    ensures var r := a + " --> " + b; r != [] && SingleLine(r) && !IsSpace(r[0])
  {
    var r := a + " --> " + b;
    assert r[0] == a[0];
    forall i | 0 <= i < |r| ensures !IsLineBreak(r[i]) {
      if i < |a| {
        assert r[i] == a[i];
      } else if i >= |a| + 5 {
        assert r[i] == b[i - |a| - 5];
      }
    }
  }

  /** Three single-line pieces joined by line feeds: three lines, and no separator inside. */
  lemma ThreeLines(a: string, t: string, x: string)
    requires a != [] && t != [] && x != [] && SingleLine(a) && SingleLine(t) && SingleLine(x)
    requires !IsSpace(a[0]) && !IsSpace(t[0]) && Trimmed(x)
    ensures var c := a + "\n" + t + "\n" + x; Lines(c) == [a, t, x] && Clean(c)
  {
    var c := a + "\n" + t + "\n" + x;
    assert c == a + "\n" + (t + "\n" + x);
    LinesCons(a, t + "\n" + x);
    LinesCons(t, x);
    LinesSingle(x);
    forall i | 0 <= i < |c| ensures SepEnd(c, i) == -1 {
      if c[i] == '\n' {
        NewlineAt(a, t, x, i);
        assert RunEnd(c, i + 1) == i + 1;
      }
    }
  }

  /** The only line feeds in `a + "\n" + t + "\n" + x` sit right before `t` and right before `x`. */
  lemma NewlineAt(a: string, t: string, x: string, i: int)
    requires a != [] && t != [] && x != [] && SingleLine(a) && SingleLine(t) && SingleLine(x)
    requires !IsSpace(t[0]) && !IsSpace(x[0])
    requires var c := a + "\n" + t + "\n" + x; 0 <= i < |c| && c[i] == '\n'
    ensures var c := a + "\n" + t + "\n" + x; i + 1 < |c| && !IsSpace(c[i + 1])
  {
    var c := a + "\n" + t + "\n" + x;
    if i == |a| {
      assert c[i + 1] == t[0];
    } else if i == |a| + 1 + |t| {
      assert c[i + 1] == x[0];
    }
  }

  lemma EntryShape(n: nat, s: Seg)
    requires SrtReady(s)
    ensures Lines(Entry(n, s)) == [NatToString(n), TimeRange(s), s.text] && Clean(Entry(n, s))
  {
    var a := NatToString(n);
    assert !IsSpace(a[0]) && SingleLine(a) by {
      assert forall i :: 0 <= i < |a| ==> IsDigit(a[i]);
    }
    TimeRangePlain(s);
    ThreeLines(a, TimeRange(s), s.text);
  }

  /** An entry of a ready segment reads back as that segment. */
  lemma ParseEntry(n: nat, s: Seg)
    requires SrtReady(s)
    ensures ParseBlock(Entry(n, s), false) == Some(s)
  {
    EntryShape(n, s);
    ParseTimeRange(s, "");
    assert TimeRange(s) + "" == TimeRange(s);
    ThreeLineBlock(Entry(n, s), NatToString(n), TimeRange(s), s);
  }

  /** A three-line block whose second line is `s`'s time line reads as `s` with the third line as text. */
  lemma ThreeLineBlock(b: string, a: string, t: string, s: Seg)
    requires Lines(b) == [a, t, s.text] && ParseTimeLine(t) == Some((s.startTime, s.endTime))
    ensures ParseBlock(b, false) == Some(s)
  {
    assert [a, t, s.text][2..] == [s.text];
  }

  /** None of the entries has four lines. */
  lemma {:induction false} NoFourLines(bs: seq<string>)
    requires forall k :: 0 <= k < |bs| ==> |Lines(bs[k])| == 3
    ensures CountFour(bs) == 0
    decreases |bs|
  {
    if bs != [] {
      NoFourLines(bs[1..]);
    }
  }

  /** A clean block of three lines that parses to `s`. */
  predicate ReadsBack(b: string, s: Seg) {
    Clean(b) && |Lines(b)| == 3 && ParseBlock(b, false) == Some(s)
  }

  lemma EntryReadsBack(n: nat, s: Seg)
    requires SrtReady(s)
    ensures ReadsBack(Entry(n, s), s)
  {
    EntryShape(n, s);
    ParseEntry(n, s);
  }

  /** The round trip over any clean three-line blocks that each parse to their segment. */
  lemma RoundTripOf(cores: seq<string>, lines: seq<string>, segs: seq<Seg>)
    requires |cores| == |segs| > 0 && |lines| == |cores|
    requires forall k :: 0 <= k < |cores| ==> lines[k] == cores[k] + "\n"
    requires forall k :: 0 <= k < |cores| ==> ReadsBack(cores[k], segs[k])
    ensures ParseSrt(Join("\n", lines)) == segs
  {
    JoinNewlines(cores, lines);
    assert Clean(cores[0]);
    JoinTail(cores);
    StripTrailingBreak(Join("\n\n", cores));
    SplitJoin(cores);
    NoFourLines(cores);
    assert !Bilingual(cores);
    ParseAll(cores, segs);
  }

  lemma {:induction false} ParseAll(bs: seq<string>, segs: seq<Seg>)
    requires |bs| == |segs|
    requires forall k :: 0 <= k < |bs| ==> ParseBlock(bs[k], false) == Some(segs[k])
    ensures Collect(BlockParser(false), bs) == segs
    decreases |bs|
  {
    if bs != [] {
      ParseAll(bs[1..], segs[1..]);
      assert segs == [segs[0]] + segs[1..];
    }
  }

  /**
   * `from_srt(to_srt())` gives back the segments handed to the constructor,
   * when every text is non-blank, trimmed and one line and every time is below
   * one hundred hours.
   */
  lemma SrtRoundTrip(segs: seq<Seg>)
    requires forall k :: 0 <= k < |segs| ==> SrtReady(segs[k])
    ensures ParseSrt(ToSrt(segs)) == segs
  {
    if segs == [] {
      EmptyRoundTrip();
    } else {
      var cores, lines := Cores(segs), Entries(segs);
      forall k | 0 <= k < |cores| ensures ReadsBack(cores[k], segs[k]) && lines[k] == cores[k] + "\n" {
        CoreReadsBack(segs, k);
      }
      RoundTripOf(cores, lines, segs);
    }
  }

  lemma EmptyRoundTrip()
    ensures ParseSrt(ToSrt([])) == []
  {
    assert ToSrt([]) == "" && Strip("") == "";
    assert SplitBlocks("") == [""];
    assert Lines("") == [];
    forall bilingual: bool ensures ParseBlock("", bilingual) == None {
    }
    assert Collect(BlockParser(Bilingual([""])), [""]) == [];
  }

  lemma CoreReadsBack(segs: seq<Seg>, k: int)
    requires 0 <= k < |segs| && SrtReady(segs[k])
    ensures ReadsBack(Cores(segs)[k], segs[k]) && Entries(segs)[k] == Cores(segs)[k] + "\n"
  {
    EntryReadsBack(k + 1, segs[k]);
  }

  /** A join of clean blocks is trimmed. */
  lemma {:induction false} JoinTail(bs: seq<string>)
    requires bs != [] && forall k :: 0 <= k < |bs| ==> Clean(bs[k])
    ensures var t := Join("\n\n", bs); t != [] && Trimmed(t)
    decreases |bs|
  {
    assert Clean(bs[0]);
    JoinHead(bs);
    if |bs| > 1 {
      JoinTail(bs[1..]);
      var t := Join("\n\n", bs[1..]);
      assert Join("\n\n", bs) == bs[0] + "\n\n" + t;
    }
  }
}
