/**
 * The string operations of the host language that the subtitle code relies on
 * (Python's `str.isspace`, `strip`, `split()`, `join`, `lower`, `splitlines`,
 * `str(int)` and `int(str)`), modelled on `seq<char>`.
 */
module Strings {

  /** The code points for which Python's `str.isspace()` holds. */
  predicate IsSpace(c: char) {
    var n := c as int;
    n == 0x20 || (0x09 <= n <= 0x0D) || (0x1C <= n <= 0x1F) || n == 0x85 || n == 0xA0
    || n == 0x1680 || (0x2000 <= n <= 0x200A) || n == 0x2028 || n == 0x2029
    || n == 0x202F || n == 0x205F || n == 0x3000
  }

  predicate AllSpace(s: string) {
    forall i :: 0 <= i < |s| ==> IsSpace(s[i])
  }

  predicate NoSpace(s: string) {
    forall i :: 0 <= i < |s| ==> !IsSpace(s[i])
  }

  /** True when `s` has no whitespace at either end (what `strip()` leaves). */
  predicate Trimmed(s: string) {
    s == [] || (!IsSpace(s[0]) && !IsSpace(s[|s| - 1]))
  }

  // ---------------------------------------------------------------------------
  // strip()

  /** `s.lstrip()`: drops the leading whitespace and nothing else. */
  function StripStart(s: string): (r: string)
    ensures |r| <= |s| && r == s[|s| - |r|..]
    ensures AllSpace(s[..|s| - |r|])
    ensures r == [] || !IsSpace(r[0])
  {
    if s != [] && IsSpace(s[0]) then StripStart(s[1..]) else s
  }

  /** `s.rstrip()`: drops the trailing whitespace and nothing else. */
  function StripEnd(s: string): (r: string)
    ensures |r| <= |s| && r == s[..|r|]
    ensures AllSpace(s[|r|..])
    ensures r == [] || !IsSpace(r[|r| - 1])
  {
    if s != [] && IsSpace(s[|s| - 1]) then StripEnd(s[..|s| - 1]) else s
  }

  /** `s.strip()` */
  function Strip(s: string): (r: string)
    ensures Trimmed(r) && |r| <= |s|
  {
    StripEnd(StripStart(s))
  }

  /** A string is blank (`not s.strip()`) exactly when every character is whitespace. */
  lemma StripEmptyIffAllSpace(s: string)
    ensures Strip(s) == [] <==> AllSpace(s)
  {
    var t := StripStart(s);
    if !AllSpace(s) {
      var i :| 0 <= i < |s| && !IsSpace(s[i]);
      assert i >= |s| - |t|;
      assert t != [] && !IsSpace(t[0]);
    }
  }

  /** `strip()` leaves a trimmed string as it is. */
  lemma StripTrimmed(s: string)
    requires Trimmed(s)
    ensures Strip(s) == s
  {
  }

  // ---------------------------------------------------------------------------
  // split() with no separator: maximal runs of non-whitespace

  /** The length of the run of non-whitespace characters at the front of `s`. */
  function TokenLen(s: string): (n: nat)
    ensures n <= |s| && NoSpace(s[..n]) && (n == |s| || IsSpace(s[n]))
  {
    if s == [] || IsSpace(s[0]) then 0 else 1 + TokenLen(s[1..])
  }

  /** `s.split()`: the whitespace-separated tokens of `s`, in order. */
  function Words(s: string): (ws: seq<string>)
    decreases |s|
  {
    if s == [] then []
    else if IsSpace(s[0]) then Words(s[1..])
    else
      var n := TokenLen(s);
      [s[..n]] + Words(s[n..])
  }

  /** Every token is a non-empty run without whitespace. */
  lemma {:induction false} WordsTokens(s: string)
    ensures forall k :: 0 <= k < |Words(s)| ==> Words(s)[k] != [] && NoSpace(Words(s)[k])
    decreases |s|
  {
    if s != [] && IsSpace(s[0]) {
      WordsTokens(s[1..]);
    } else if s != [] {
      var n := TokenLen(s);
      WordsTokens(s[n..]);
      assert Words(s) == [s[..n]] + Words(s[n..]);
    }
  }

  lemma {:induction false} TokenLenAppend(a: string, b: string)
    requires b == [] || IsSpace(b[0])
    ensures TokenLen(a + b) == TokenLen(a)
  {
    if a != [] && !IsSpace(a[0]) {
      assert (a + b)[1..] == a[1..] + b;
      TokenLenAppend(a[1..], b);
    } else if a == [] {
      assert a + b == b;
    }
  }

  /** Splitting two strings glued at a whitespace boundary splits each of them. */
  lemma {:induction false} WordsAppend(a: string, b: string)
    requires b == [] || IsSpace(b[0])
    ensures Words(a + b) == Words(a) + Words(b)
    decreases |a|, 1
  {
    if a == [] {
      assert a + b == b;
    } else if IsSpace(a[0]) {
      WordsAppendSpace(a, b);
    } else {
      WordsAppendToken(a, b);
    }
  }

  lemma {:induction false} WordsAppendSpace(a: string, b: string)
    requires a != [] && IsSpace(a[0])
    requires b == [] || IsSpace(b[0])
    ensures Words(a + b) == Words(a) + Words(b)
    decreases |a|, 0
  {
    assert (a + b)[0] == a[0] && (a + b)[1..] == a[1..] + b;
    assert Words(a[1..] + b) == Words(a[1..]) + Words(b) by {
      WordsAppend(a[1..], b);
    }
  }

  lemma {:induction false} WordsAppendToken(a: string, b: string)
    requires a != [] && !IsSpace(a[0])
    requires b == [] || IsSpace(b[0])
    ensures Words(a + b) == Words(a) + Words(b)
    decreases |a|, 0
  {
    var n := TokenLen(a);
    assert TokenLen(a + b) == n by {
      TokenLenAppend(a, b);
    }
    assert (a + b)[0] == a[0];
    assert (a + b)[..n] == a[..n] && (a + b)[n..] == a[n..] + b;
    assert Words(a[n..] + b) == Words(a[n..]) + Words(b) by {
      WordsAppend(a[n..], b);
    }
    assert Words(a + b) == [a[..n]] + (Words(a[n..]) + Words(b));
    assert Words(a) == [a[..n]] + Words(a[n..]);
  }

  lemma {:induction false} WordsAllSpace(s: string)
    requires AllSpace(s)
    ensures Words(s) == []
    decreases |s|
  {
    if s != [] {
      WordsAllSpace(s[1..]);
    }
  }

  /** A single non-empty run without whitespace is one token. */
  lemma WordsOfToken(w: string)
    requires w != [] && NoSpace(w)
    ensures Words(w) == [w]
  {
    assert TokenLen(w) == |w| by { TokenLenAll(w); }
    assert w[..|w|] == w;
    assert w[|w|..] == [];
  }

  lemma {:induction false} TokenLenAll(w: string)
    requires NoSpace(w)
    ensures TokenLen(w) == |w|
  {
    if w != [] {
      TokenLenAll(w[1..]);
    }
  }

  /** Gluing with one space adds the tokens: `(a + " " + b).split() == a.split() + b.split()`. */
  lemma WordsJoinSpace(a: string, b: string)
    ensures Words(a + " " + b) == Words(a) + Words(b)
  {
    assert a + " " + b == a + (" " + b);
    WordsAppend(a, " " + b);
    assert (" " + b)[1..] == b;
  }

  /** Surrounding whitespace does not change the tokens. */
  lemma WordsStrip(s: string)
    ensures Words(Strip(s)) == Words(s)
  {
    var t := StripStart(s);
    WordsStripStart(s);
    WordsStripEnd(t);
  }

  lemma WordsStripEnd(t: string)
    ensures Words(StripEnd(t)) == Words(t)
  {
    var r := StripEnd(t);
    var rest := t[|r|..];
    assert t == r + rest;
    WordsAllSpace(rest);
    WordsAppend(r, rest);
  }

  lemma {:induction false} WordsStripStart(s: string)
    ensures Words(StripStart(s)) == Words(s)
    decreases |s|
  {
    if s != [] && IsSpace(s[0]) {
      WordsStripStart(s[1..]);
    }
  }

  // ---------------------------------------------------------------------------
  // sep.join(parts)

  /** `sep.join(parts)` */
  function Join(sep: string, parts: seq<string>): string {
    if parts == [] then ""
    else if |parts| == 1 then parts[0]
    else parts[0] + sep + Join(sep, parts[1..])
  }

  /** `''.join(parts)` */
  function Concat(parts: seq<string>): string {
    if parts == [] then "" else parts[0] + Concat(parts[1..])
  }

  lemma {:induction false} JoinAppend(sep: string, xs: seq<string>, ys: seq<string>)
    requires xs != [] && ys != []
    ensures Join(sep, xs + ys) == Join(sep, xs) + sep + Join(sep, ys)
    decreases |xs|
  {
    if |xs| == 1 {
      assert (xs + ys)[1..] == ys;
    } else {
      assert (xs + ys)[1..] == xs[1..] + ys;
      JoinAppend(sep, xs[1..], ys);
    }
  }

  /** Joining tokens with one space and splitting again gives the tokens back. */
  lemma {:induction false} WordsOfJoin(ws: seq<string>)
    requires forall k :: 0 <= k < |ws| ==> ws[k] != [] && NoSpace(ws[k])
    ensures Words(Join(" ", ws)) == ws
    decreases |ws|
  {
    if ws == [] {
    } else if |ws| == 1 {
      WordsOfToken(ws[0]);
    } else {
      WordsJoinSpace(ws[0], Join(" ", ws[1..]));
      WordsOfToken(ws[0]);
      WordsOfJoin(ws[1..]);
      assert ws == [ws[0]] + ws[1..];
    }
  }

  // ---------------------------------------------------------------------------
  // lower()

  /** `str.lower` restricted to ASCII letters. */
  function LowerChar(c: char): char {
    if 'A' <= c <= 'Z' then (c as int + 32) as char else c
  }

  function Lower(s: string): string {
    seq(|s|, i requires 0 <= i < |s| => LowerChar(s[i]))
  }

  predicate IsLowered(s: string) {
    forall i :: 0 <= i < |s| ==> LowerChar(s[i]) == s[i]
  }

  // ---------------------------------------------------------------------------
  // str(int), int(str) and zero-padded formatting

  predicate IsDigit(c: char) {
    '0' <= c <= '9'
  }

  predicate AllDigits(s: string) {
    forall i :: 0 <= i < |s| ==> IsDigit(s[i])
  }

  function DigitChar(d: nat): (c: char)
    requires d < 10
    ensures IsDigit(c)
  {
    ('0' as int + d) as char
  }

  function DigitValue(c: char): (d: nat)
    requires IsDigit(c)
    ensures d < 10
  {
    c as int - '0' as int
  }

  /** `str(n)` for a natural number. */
  function NatToString(n: nat): (r: string)
    ensures r != [] && AllDigits(r)
    decreases n
  {
    if n < 10 then [DigitChar(n)] else NatToString(n / 10) + [DigitChar(n % 10)]
  }

  /** `int(s)` for a string of ASCII digits. */
  function DecimalValue(s: string): nat
    requires AllDigits(s)
  {
    if s == [] then 0 else DecimalValue(s[..|s| - 1]) * 10 + DigitValue(s[|s| - 1])
  }

  /** `int(str(n)) == n` */
  lemma {:induction false} DecimalOfNatToString(n: nat)
    ensures DecimalValue(NatToString(n)) == n
    decreases n
  {
    if n >= 10 {
      var s := NatToString(n);
      assert s[..|s| - 1] == NatToString(n / 10);
      DecimalOfNatToString(n / 10);
    }
  }

  /** `str` is injective on natural numbers. */
  lemma NatToStringInjective(m: nat, n: nat)
    requires NatToString(m) == NatToString(n)
    ensures m == n
  {
    DecimalOfNatToString(m);
    DecimalOfNatToString(n);
  }

  function Zeros(k: nat): (r: string)
    ensures |r| == k && forall i :: 0 <= i < k ==> r[i] == '0'
  {
    if k == 0 then [] else ['0'] + Zeros(k - 1)
  }

  /** Pads a digit string on the left with zeros up to `width`. */
  function PadLeft(s: string, width: int): (r: string)
    ensures |r| == if |s| >= width then |s| else width
  {
    if |s| >= width then s else Zeros(width - |s|) + s
  }

  /** Python's `f"{n:0W}"` for an integer `n` and width `W`: zero fill goes after the sign. */
  function ZeroPad(n: int, width: nat): string {
    if n < 0 then "-" + PadLeft(NatToString(-n), width - 1) else PadLeft(NatToString(n), width)
  }

  // ---------------------------------------------------------------------------
  // splitlines()

  /** The line boundaries of Python's `str.splitlines()`. */
  predicate IsLineBreak(c: char) {
    var n := c as int;
    (0x0A <= n <= 0x0D) || (0x1C <= n <= 0x1E) || n == 0x85 || n == 0x2028 || n == 0x2029
  }

  predicate SingleLine(s: string) {
    forall i :: 0 <= i < |s| ==> !IsLineBreak(s[i])
  }

  function LineLen(s: string): (n: nat)
    ensures n <= |s| && SingleLine(s[..n]) && (n == |s| || IsLineBreak(s[n]))
  {
    if s == [] || IsLineBreak(s[0]) then 0 else 1 + LineLen(s[1..])
  }

  /** `s.splitlines()`: "\r\n" is one boundary and a final boundary adds no empty line. */
  function Lines(s: string): seq<string>
    decreases |s|
  {
    if s == [] then []
    else
      var n := LineLen(s);
      if n == |s| then [s]
      else
        var skip := if s[n] == '\r' && n + 1 < |s| && s[n + 1] == '\n' then 2 else 1;
        [s[..n]] + Lines(s[n + skip..])
  }

  lemma {:induction false} LineLenAll(s: string)
    requires SingleLine(s)
    ensures LineLen(s) == |s|
  {
    if s != [] {
      LineLenAll(s[1..]);
    }
  }

  lemma {:induction false} LineLenAppend(a: string, b: string)
    requires SingleLine(a) && b != [] && IsLineBreak(b[0])
    ensures LineLen(a + b) == |a|
  {
    if a == [] {
      assert a + b == b;
    } else {
      assert (a + b)[1..] == a[1..] + b;
      LineLenAppend(a[1..], b);
    }
  }

  /** A line followed by "\n" is split off as one line. */
  lemma LinesCons(a: string, b: string)
    requires SingleLine(a)
    ensures Lines(a + "\n" + b) == [a] + Lines(b)
  {
    var s := a + "\n" + b;
    assert s == a + ("\n" + b);
    LineLenAppend(a, "\n" + b);
    assert s[..|a|] == a;
    assert s[|a| + 1..] == b;
  }

  lemma LinesSingle(a: string)
    requires a != [] && SingleLine(a)
    ensures Lines(a) == [a]
  {
    LineLenAll(a);
  }

  // ---------------------------------------------------------------------------
  // Small predicates

  predicate IsAscii(s: string) {
    forall i :: 0 <= i < |s| ==> s[i] as int < 128
  }

  /** `c in s` for a single character. */
  predicate Contains(s: string, c: char) {
    exists i :: 0 <= i < |s| && s[i] == c
  }

  /** `s.endswith(suffix)` */
  predicate EndsWith(s: string, suffix: string) {
    |suffix| <= |s| && s[|s| - |suffix|..] == suffix
  }
}
