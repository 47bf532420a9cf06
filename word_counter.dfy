/**
 * The multi-script length metric of the splitter (`count_words`) and the text
 * normalisation and punctuation filter built on the same character classes
 * (`preprocess_text`, `is_pure_punctuation`, `preprocess_segments`).
 */
module WordCounter {
  import opened Strings
  import opened Segments

  /** An inclusive range of code points: one character-class pattern of `count_words`. */
  datatype CodeBlock = CodeBlock(lo: int, hi: int)

  /** The patterns of `count_words`, in the order it applies them. */
  const ScriptBlocks: seq<CodeBlock> := [
    CodeBlock(0x4E00, 0x9FFF),  // CJK unified ideographs
    CodeBlock(0x3040, 0x309F),  // Hiragana
    CodeBlock(0x30A0, 0x30FF),  // Katakana
    CodeBlock(0xAC00, 0xD7AF),  // Hangul syllables
    CodeBlock(0x0E00, 0x0E7F),  // Thai
    CodeBlock(0x0600, 0x06FF),  // Arabic
    CodeBlock(0x0400, 0x04FF),  // Cyrillic
    CodeBlock(0x0590, 0x05FF),  // Hebrew
    CodeBlock(0x1E00, 0x1EFF),  // Latin Extended Additional (Vietnamese)
    CodeBlock(0x3130, 0x318F)   // Hangul compatibility jamo
  ]

  predicate InBlock(c: char, b: CodeBlock) {
    b.lo <= c as int <= b.hi
  }

  /** `c` belongs to one of the blocks `bs`. */
  predicate InSome(c: char, bs: seq<CodeBlock>) {
    exists k :: 0 <= k < |bs| && InBlock(c, bs[k])
  }

  /** A character counted one unit by itself. */
  predicate IsScriptChar(c: char) {
    InSome(c, ScriptBlocks)
  }

  lemma BlocksAboveSpace(k: int)
    requires 0 <= k < |ScriptBlocks|
    ensures ScriptBlocks[k].lo >= 0x400
  {
  }

  /** No whitespace code point lies in a script block. */
  lemma SpaceIsNotScript(c: char)
    requires IsSpace(c)
    ensures !IsScriptChar(c)
  {
  }

  // ---------------------------------------------------------------------------
  // The regular-expression steps of count_words

  /** `len(re.findall(pattern, s))` for the pattern of block `b`. */
  function CountIn(s: string, b: CodeBlock): nat {
    if s == [] then 0 else (if InBlock(s[0], b) then 1 else 0) + CountIn(s[1..], b)
  }

  /** `re.sub(pattern, ' ', s)` for the pattern of block `b`. */
  function ReplaceIn(s: string, b: CodeBlock): string {
    seq(|s|, i requires 0 <= i < |s| => if InBlock(s[i], b) then ' ' else s[i])
  }

  /** The number of characters of `s` in any of the blocks `bs`. */
  function CountInSome(s: string, bs: seq<CodeBlock>): nat {
    if s == [] then 0 else (if InSome(s[0], bs) then 1 else 0) + CountInSome(s[1..], bs)
  }

  /** `s` with every character of the blocks `bs` replaced by a space. */
  function BlankSome(s: string, bs: seq<CodeBlock>): string {
    seq(|s|, i requires 0 <= i < |s| => if InSome(s[i], bs) then ' ' else s[i])
  }

  /**
   * The length metric, stated at once: one unit per script character, plus
   * the whitespace-separated tokens of what is left when script characters
   * are blanked out.
   */
  function WordCount(s: string): nat {
    CountInSome(s, ScriptBlocks) + |Words(BlankSome(s, ScriptBlocks))|
  }

  lemma InSomeSnoc(c: char, bs: seq<CodeBlock>, b: CodeBlock)
    ensures InSome(c, bs + [b]) <==> InSome(c, bs) || InBlock(c, b)
  {
    if InSome(c, bs) {
      var k :| 0 <= k < |bs| && InBlock(c, bs[k]);
      assert (bs + [b])[k] == bs[k];
    }
    if InSome(c, bs + [b]) {
      var k :| 0 <= k < |bs| + 1 && InBlock(c, (bs + [b])[k]);
      if k < |bs| {
        assert (bs + [b])[k] == bs[k];
      }
    }
    if InBlock(c, b) {
      assert (bs + [b])[|bs|] == b;
    }
  }

  /** One pattern step of the loop turns the blanked text for `bs` into that for `bs + [b]`. */
  lemma ReplaceStep(s: string, bs: seq<CodeBlock>, b: CodeBlock)
    requires b.lo > ' ' as int
    ensures ReplaceIn(BlankSome(s, bs), b) == BlankSome(s, bs + [b])
  {
    forall i | 0 <= i < |s|
      ensures ReplaceIn(BlankSome(s, bs), b)[i] == BlankSome(s, bs + [b])[i]
    {
      InSomeSnoc(s[i], bs, b);
    }
  }

  /** The characters the step counts are those of `b` not already blanked by `bs`. */
  lemma {:induction false} CountStep(s: string, bs: seq<CodeBlock>, b: CodeBlock)
    requires b.lo > ' ' as int
    ensures CountIn(BlankSome(s, bs), b) + CountInSome(s, bs) == CountInSome(s, bs + [b])
    decreases |s|
  {
    if s != [] {
      InSomeSnoc(s[0], bs, b);
      assert BlankSome(s, bs)[1..] == BlankSome(s[1..], bs);
      CountStep(s[1..], bs, b);
    }
  }

  /**
   * `count_words(text)`: applies the patterns one after another, counting the
   * matches of each and replacing them by spaces, then counts the tokens left.
   */
  method CountWords(text: string) returns (n: nat)
    ensures n == WordCount(text)
  {
    var nonEnglish := 0;
    var remaining := text;
    CountInSomeNone(text, []);
    assert BlankSome(text, []) == text;
    for k := 0 to |ScriptBlocks|
      invariant remaining == BlankSome(text, ScriptBlocks[..k])
      invariant nonEnglish == CountInSome(text, ScriptBlocks[..k])
    {
      var b := ScriptBlocks[k];
      BlocksAboveSpace(k);
      CountStep(text, ScriptBlocks[..k], b);
      ReplaceStep(text, ScriptBlocks[..k], b);
      assert ScriptBlocks[..k + 1] == ScriptBlocks[..k] + [b];
      nonEnglish := nonEnglish + CountIn(remaining, b);
      remaining := ReplaceIn(remaining, b);
    }
    assert ScriptBlocks[..|ScriptBlocks|] == ScriptBlocks;
    WordsStrip(remaining);
    n := nonEnglish + |Words(Strip(remaining))|;
  }

  // ---------------------------------------------------------------------------
  // Properties of the metric

  lemma {:induction false} CountInSomeNone(s: string, bs: seq<CodeBlock>)
    requires forall i :: 0 <= i < |s| ==> !InSome(s[i], bs)
    ensures CountInSome(s, bs) == 0
    decreases |s|
  {
    if s != [] {
      CountInSomeNone(s[1..], bs);
    }
  }

  lemma {:induction false} CountInSomeAll(s: string, bs: seq<CodeBlock>)
    requires forall i :: 0 <= i < |s| ==> InSome(s[i], bs)
    ensures CountInSome(s, bs) == |s|
    decreases |s|
  {
    if s != [] {
      CountInSomeAll(s[1..], bs);
    }
  }

  lemma {:induction false} CountInSomeConcat(a: string, b: string, bs: seq<CodeBlock>)
    ensures CountInSome(a + b, bs) == CountInSome(a, bs) + CountInSome(b, bs)
    decreases |a|
  {
    if a == [] {
      assert a + b == b;
    } else {
      assert (a + b)[1..] == a[1..] + b;
      CountInSomeConcat(a[1..], b, bs);
    }
  }

  /** Empty and whitespace-only text counts 0. */
  lemma WordCountBlank(s: string)
    requires AllSpace(s)
    ensures WordCount(s) == 0
  {
    forall i | 0 <= i < |s| ensures !IsScriptChar(s[i]) {
      SpaceIsNotScript(s[i]);
    }
    CountInSomeNone(s, ScriptBlocks);
    WordsAllSpace(BlankSome(s, ScriptBlocks));
  }

  /** Text made only of script characters counts one per character. */
  lemma WordCountAllScript(s: string)
    requires forall i :: 0 <= i < |s| ==> IsScriptChar(s[i])
    ensures WordCount(s) == |s|
  {
    CountInSomeAll(s, ScriptBlocks);
    WordsAllSpace(BlankSome(s, ScriptBlocks));
  }

  /** Text without script characters counts its whitespace-separated tokens. */
  lemma WordCountNoScript(s: string)
    requires forall i :: 0 <= i < |s| ==> !IsScriptChar(s[i])
    ensures WordCount(s) == |Words(s)|
  {
    CountInSomeNone(s, ScriptBlocks);
    assert BlankSome(s, ScriptBlocks) == s;
  }

  /** Joining two texts with one space adds their counts. */
  lemma WordCountJoinSpace(a: string, b: string)
    ensures WordCount(a + " " + b) == WordCount(a) + WordCount(b)
  {
    var bs := ScriptBlocks;
    SpaceIsNotScript(' ');
    CountInSomeConcat(a + " ", b, bs);
    CountInSomeConcat(a, " ", bs);
    assert CountInSome(" ", bs) == 0;
    assert BlankSome(a + " " + b, bs) == BlankSome(a, bs) + " " + BlankSome(b, bs);
    WordsJoinSpace(BlankSome(a, bs), BlankSome(b, bs));
  }

  // ---------------------------------------------------------------------------
  // preprocess_text

  /** `preprocess_text(s)`: lower-case, then re-join the tokens with single spaces. */
  function NormalizeText(s: string): (r: string)
    ensures Words(r) == Words(Lower(s))
  {
    WordsTokens(Lower(s));
    WordsOfJoin(Words(Lower(s)));
    Join(" ", Words(Lower(s)))
  }

  lemma {:induction false} WordsLowered(s: string)
    requires IsLowered(s)
    ensures forall k :: 0 <= k < |Words(s)| ==> IsLowered(Words(s)[k])
    decreases |s|
  {
    if s != [] {
      if IsSpace(s[0]) {
        WordsLowered(s[1..]);
      } else {
        var n := TokenLen(s);
        WordsLowered(s[n..]);
        assert Words(s) == [s[..n]] + Words(s[n..]);
      }
    }
  }

  lemma {:induction false} JoinLowered(ws: seq<string>)
    requires forall k :: 0 <= k < |ws| ==> IsLowered(ws[k])
    ensures IsLowered(Join(" ", ws))
    decreases |ws|
  {
    if |ws| > 1 {
      JoinLowered(ws[1..]);
    }
  }

  /** Normalising twice is normalising once. */
  lemma NormalizeIdempotent(s: string)
    ensures NormalizeText(NormalizeText(s)) == NormalizeText(s)
  {
    var t := NormalizeText(s);
    assert IsLowered(Lower(s));
    WordsLowered(Lower(s));
    JoinLowered(Words(Lower(s)));
    assert Lower(t) == t;
  }

  // ---------------------------------------------------------------------------
  // is_pure_punctuation and preprocess_segments

  /**
   * The characters the model lets match the regular-expression class `\w`:
   * ASCII letters, digits and underscore, the Latin-1 and Latin Extended
   * letters, and the script characters of the length metric.
   */
  predicate IsWordChar(c: char) {
    var n := c as int;
    ('a' <= c <= 'z') || ('A' <= c <= 'Z') || ('0' <= c <= '9') || c == '_'
    || n == 0xAA || n == 0xB5 || n == 0xBA
    || (0xC0 <= n <= 0x24F && n != 0xD7 && n != 0xF7)
    || IsScriptChar(c)
  }

  /** `is_pure_punctuation(s)`: no character of `s` matches `\w`. */
  predicate IsPurePunctuation(s: string) {
    forall i :: 0 <= i < |s| ==> !IsWordChar(s[i])
  }

  predicate HasWordChar(seg: Seg) {
    !IsPurePunctuation(seg.text)
  }

  /** `preprocess_segments(segments)`: drops the segments whose text is pure punctuation. */
  method PreprocessSegments(segs: seq<Seg>) returns (kept: seq<Seg>)
    ensures kept == Filter(segs, HasWordChar)
    ensures forall x :: x in kept <==> x in segs && !IsPurePunctuation(x.text)
  {
    kept := [];
    for i := 0 to |segs|
      invariant kept == Filter(segs[..i], HasWordChar)
    {
      FilterAppend(segs[..i], segs[i], HasWordChar);
      assert segs[..i + 1] == segs[..i] + [segs[i]];
      if !IsPurePunctuation(segs[i].text) {
        kept := kept + [segs[i]];
      }
    }
    assert segs[..|segs|] == segs;
    forall x ensures x in kept <==> x in segs && !IsPurePunctuation(x.text) {
      FilterMembers(segs, HasWordChar, x);
    }
  }
}
