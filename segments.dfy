/**
 * The timed text unit of the subtitle pipeline (`ASRDataSeg`, and the
 * `SubtitleSegment` the splitter works on, which has the same three fields),
 * and the list operations the pipeline performs on sequences of them.
 */
module Segments {
  import opened Strings

  datatype Option<T> = None | Some(value: T)

  function Min(a: int, b: int): int {
    if a <= b then a else b
  }

  function Max(a: int, b: int): int {
    if a >= b then a else b
  }

  function Abs(a: int): nat {
    if a < 0 then -a else a
  }

  /** Python's `a // b`: the quotient rounded toward minus infinity. */
  function FloorDiv(a: int, b: int): int
    requires b != 0
  {
    if b > 0 then a / b else (-a) / (-b)
  }

  /** Python's `a % b`: the remainder, with the sign of `b`. */
  function FloorMod(a: int, b: int): (r: int)
    requires b != 0
    ensures a == b * FloorDiv(a, b) + r
    ensures b > 0 ==> 0 <= r < b
    ensures b < 0 ==> b < r <= 0
  {
    a - b * FloorDiv(a, b)
  }

  /** One timed fragment or subtitle entry: text and integer-millisecond times. */
  datatype Seg = Seg(text: string, startTime: int, endTime: int)

  function Last<T>(s: seq<T>): T
    requires s != []
  {
    s[|s| - 1]
  }

  lemma TakeSnoc<T>(s: seq<T>, i: int)
    requires 0 <= i < |s|
    ensures s[..i + 1] == s[..i] + [s[i]]
  {
  }

  lemma SplitAt<T>(s: seq<T>, k: int)
    requires 0 <= k <= |s|
    ensures s[..k] + s[k..] == s
  {
  }

  /** The pause from `a` to the next segment `b`: `b.start_time - a.end_time`. */
  function Gap(a: Seg, b: Seg): int {
    b.startTime - a.endTime
  }

  function Texts(segs: seq<Seg>): seq<string> {
    seq(|segs|, i requires 0 <= i < |segs| => segs[i].text)
  }

  /** `to_txt()`: the texts joined by newlines. */
  function TranscriptText(segs: seq<Seg>): string {
    Join("\n", Texts(segs))
  }

  // ---------------------------------------------------------------------------
  // Concatenation of a list of lists

  function Flatten<T>(gs: seq<seq<T>>): seq<T> {
    if gs == [] then [] else gs[0] + Flatten(gs[1..])
  }

  lemma {:induction false} FlattenConcat<T>(gs: seq<seq<T>>, hs: seq<seq<T>>)
    ensures Flatten(gs + hs) == Flatten(gs) + Flatten(hs)
    decreases |gs|
  {
    if gs == [] {
      assert gs + hs == hs;
    } else {
      assert (gs + hs)[1..] == gs[1..] + hs;
      FlattenConcat(gs[1..], hs);
    }
  }

  lemma FlattenAppend<T>(gs: seq<seq<T>>, g: seq<T>)
    ensures Flatten(gs + [g]) == Flatten(gs) + g
  {
    FlattenConcat(gs, [g]);
    assert Flatten([g]) == g + Flatten([g][1..]);
  }

  /** Every element of a flattened list sits in one of the lists. */
  lemma {:induction false} FlattenLength<T>(gs: seq<seq<T>>)
    requires forall k :: 0 <= k < |gs| ==> gs[k] != []
    ensures |Flatten(gs)| >= |gs|
    decreases |gs|
  {
    if gs != [] {
      FlattenLength(gs[1..]);
    }
  }

  /** The flattened list, cut inside group `i`, is the flattened prefix and part of that group. */
  lemma FlattenPrefix<T>(gs: seq<seq<T>>, i: int, j: int)
    requires 0 <= i < |gs| && 0 <= j <= |gs[i]|
    ensures |Flatten(gs[..i])| + j <= |Flatten(gs)|
    ensures Flatten(gs)[..|Flatten(gs[..i])| + j] == Flatten(gs[..i]) + gs[i][..j]
  {
    assert gs == gs[..i] + ([gs[i]] + gs[i + 1..]);
    FlattenConcat(gs[..i], [gs[i]] + gs[i + 1..]);
    assert Flatten([gs[i]] + gs[i + 1..]) == gs[i] + Flatten(gs[i + 1..]);
    var f := Flatten(gs);
    var a := Flatten(gs[..i]);
    assert f == a + gs[i] + Flatten(gs[i + 1..]);
    assert f[..|a| + j] == a + gs[i][..j];
  }

  /** Every element of a flattened list is an element of one of its groups. */
  lemma {:induction false} FlattenMember<T>(gs: seq<seq<T>>, k: int)
    requires 0 <= k < |Flatten(gs)|
    ensures exists i, j :: 0 <= i < |gs| && 0 <= j < |gs[i]| && Flatten(gs)[k] == gs[i][j]
    decreases |gs|
  {
    if k < |gs[0]| {
      assert Flatten(gs)[k] == gs[0][k];
    } else {
      FlattenMember(gs[1..], k - |gs[0]|);
      var i, j :| 0 <= i < |gs[1..]| && 0 <= j < |gs[1..][i]| && Flatten(gs[1..])[k - |gs[0]|] == gs[1..][i][j];
      assert Flatten(gs)[k] == gs[i + 1][j];
    }
  }

  /** Where group `k` begins in the flattened list. */
  function Offset<T>(gs: seq<seq<T>>, k: int): nat
    requires 0 <= k <= |gs|
  {
    |Flatten(gs[..k])|
  }

  /** Each group of a partition is the contiguous slice that begins at its offset. */
  lemma FlattenSlice<T>(gs: seq<seq<T>>, k: int)
    requires 0 <= k < |gs|
    ensures Offset(gs, k) + |gs[k]| <= |Flatten(gs)|
    ensures Flatten(gs)[Offset(gs, k)..Offset(gs, k) + |gs[k]|] == gs[k]
  {
    FlattenPrefix(gs, k, |gs[k]|);
    var a := Offset(gs, k);
    assert Flatten(gs)[..a + |gs[k]|] == Flatten(gs[..k]) + gs[k];
    assert Flatten(gs)[a..a + |gs[k]|] == Flatten(gs)[..a + |gs[k]|][a..];
  }

  // ---------------------------------------------------------------------------
  // Filtering (list comprehensions with a condition)

  function Filter(s: seq<Seg>, p: Seg -> bool): (r: seq<Seg>)
    ensures |r| <= |s|
  {
    if s == [] then [] else (if p(s[0]) then [s[0]] else []) + Filter(s[1..], p)
  }

  /** Filtering keeps exactly the elements that satisfy the condition. */
  lemma {:induction false} FilterMembers(s: seq<Seg>, p: Seg -> bool, x: Seg)
    ensures x in Filter(s, p) <==> x in s && p(x)
    decreases |s|
  {
    if s != [] {
      FilterMembers(s[1..], p, x);
      assert x in s <==> x == s[0] || x in s[1..];
    }
  }

  lemma {:induction false} FilterKeepsAll(s: seq<Seg>, p: Seg -> bool)
    requires forall i :: 0 <= i < |s| ==> p(s[i])
    ensures Filter(s, p) == s
    decreases |s|
  {
    if s != [] {
      FilterKeepsAll(s[1..], p);
    }
  }

  lemma {:induction false} FilterAppend(s: seq<Seg>, x: Seg, p: Seg -> bool)
    ensures Filter(s + [x], p) == Filter(s, p) + (if p(x) then [x] else [])
    decreases |s|
  {
    if s == [] {
      assert [x][1..] == [];
    } else {
      var h, e := if p(s[0]) then [s[0]] else [], if p(x) then [x] else [];
      assert (s + [x])[0] == s[0] && (s + [x])[1..] == s[1..] + [x];
      assert Filter(s[1..] + [x], p) == Filter(s[1..], p) + e by {
        FilterAppend(s[1..], x, p);
      }
      assert Filter(s + [x], p) == h + (Filter(s[1..], p) + e);
      assert h + (Filter(s[1..], p) + e) == (h + Filter(s[1..], p)) + e;
    }
  }

  // ---------------------------------------------------------------------------
  // Stable sort by start time (`list.sort(key=lambda seg: seg.start_time)`)

  predicate SortedByStart(s: seq<Seg>) {
    forall i, j :: 0 <= i < j < |s| ==> s[i].startTime <= s[j].startTime
  }

  /** Inserts `x` after every element that does not start later than it. */
  function InsertByStart(x: Seg, s: seq<Seg>): seq<Seg> {
    if s == [] then [x]
    else if s[0].startTime <= x.startTime then [s[0]] + InsertByStart(x, s[1..])
    else [x] + s
  }

  lemma {:induction false} InsertByStartMultiset(x: Seg, s: seq<Seg>)
    ensures multiset(InsertByStart(x, s)) == multiset(s) + multiset{x}
    decreases |s|
  {
    if s != [] && s[0].startTime <= x.startTime {
      InsertByStartMultiset(x, s[1..]);
      assert s == [s[0]] + s[1..];
    }
  }

  lemma InsertByStartHead(x: Seg, s: seq<Seg>)
    ensures InsertByStart(x, s) != []
    ensures InsertByStart(x, s)[0] == x || (s != [] && InsertByStart(x, s)[0] == s[0])
  {
  }

  lemma SortedCons(y: Seg, s: seq<Seg>)
    requires SortedByStart(s)
    requires s != [] ==> y.startTime <= s[0].startTime
    ensures SortedByStart([y] + s)
  {
    var t := [y] + s;
    forall i, j | 0 <= i < j < |t| ensures t[i].startTime <= t[j].startTime {
      if i == 0 {
        assert t[j] == s[j - 1];
        assert s[0].startTime <= s[j - 1].startTime;
      } else {
        assert t[i] == s[i - 1] && t[j] == s[j - 1];
      }
    }
  }

  lemma SortedTail(s: seq<Seg>)
    requires SortedByStart(s) && s != []
    ensures SortedByStart(s[1..])
  {
    forall i, j | 0 <= i < j < |s| - 1 ensures s[1..][i].startTime <= s[1..][j].startTime {
      assert s[1..][i] == s[i + 1] && s[1..][j] == s[j + 1];
    }
  }

  lemma {:induction false} InsertByStartSorted(x: Seg, s: seq<Seg>)
    requires SortedByStart(s)
    ensures SortedByStart(InsertByStart(x, s))
    decreases |s|
  {
    if s == [] {
    } else if s[0].startTime <= x.startTime {
      SortedTail(s);
      InsertByStartSorted(x, s[1..]);
      InsertByStartHead(x, s[1..]);
      SortedCons(s[0], InsertByStart(x, s[1..]));
    } else {
      SortedCons(x, s);
    }
  }

  /** Python's stable `sort` by start time, as an insertion sort. */
  function SortByStart(s: seq<Seg>): (r: seq<Seg>)
    ensures SortedByStart(r)
  {
    if s == [] then []
    else
      var init := SortByStart(s[..|s| - 1]);
      InsertByStartSorted(Last(s), init);
      InsertByStart(Last(s), init)
  }

  /** Sorting is a permutation. */
  lemma {:induction false} SortByStartPermutes(s: seq<Seg>)
    ensures multiset(SortByStart(s)) == multiset(s)
    decreases |s|
  {
    if s != [] {
      var init := s[..|s| - 1];
      var sorted := SortByStart(init);
      assert multiset(sorted) == multiset(init) by {
        SortByStartPermutes(init);
      }
      assert multiset(SortByStart(s)) == multiset(sorted) + multiset{Last(s)} by {
        InsertByStartMultiset(Last(s), sorted);
      }
      assert multiset(s) == multiset(init) + multiset{Last(s)} by {
        assert s == init + [Last(s)];
      }
    }
  }

  /** The elements of `s` that start at `t`, in their order in `s`. */
  function WithStart(s: seq<Seg>, t: int): seq<Seg> {
    if s == [] then [] else (if s[0].startTime == t then [s[0]] else []) + WithStart(s[1..], t)
  }

  lemma {:induction false} WithStartConcat(a: seq<Seg>, b: seq<Seg>, t: int)
    ensures WithStart(a + b, t) == WithStart(a, t) + WithStart(b, t)
    decreases |a|
  {
    if a == [] {
      assert a + b == b;
    } else {
      var h := if a[0].startTime == t then [a[0]] else [];
      assert (a + b)[0] == a[0] && (a + b)[1..] == a[1..] + b;
      assert WithStart(a[1..] + b, t) == WithStart(a[1..], t) + WithStart(b, t) by {
        WithStartConcat(a[1..], b, t);
      }
      assert WithStart(a + b, t) == h + (WithStart(a[1..], t) + WithStart(b, t));
      assert h + (WithStart(a[1..], t) + WithStart(b, t)) == (h + WithStart(a[1..], t)) + WithStart(b, t);
    }
  }

  lemma {:induction false} WithStartNone(s: seq<Seg>, t: int)
    requires forall i :: 0 <= i < |s| ==> s[i].startTime > t
    ensures WithStart(s, t) == []
    decreases |s|
  {
    if s != [] {
      WithStartNone(s[1..], t);
    }
  }

  lemma {:induction false} WithStartInsert(x: Seg, s: seq<Seg>, t: int)
    requires SortedByStart(s)
    ensures WithStart(InsertByStart(x, s), t)
         == WithStart(s, t) + (if x.startTime == t then [x] else [])
    decreases |s|
  {
    if s == [] {
    } else if s[0].startTime <= x.startTime {
      var rest := InsertByStart(x, s[1..]);
      assert WithStart(rest, t) == WithStart(s[1..], t) + (if x.startTime == t then [x] else []) by {
        SortedTail(s);
        WithStartInsert(x, s[1..], t);
      }
      assert InsertByStart(x, s) == [s[0]] + rest;
      WithStartConcat([s[0]], rest, t);
      assert WithStart(s, t) == WithStart([s[0]], t) + WithStart(s[1..], t) by {
        WithStartConcat([s[0]], s[1..], t);
        assert s == [s[0]] + s[1..];
      }
    } else {
      assert x.startTime == t ==> WithStart(s, t) == [] by {
        if x.startTime == t {
          assert forall i :: 0 <= i < |s| ==> s[0].startTime <= s[i].startTime;
          WithStartNone(s, t);
        }
      }
      assert InsertByStart(x, s) == [x] + s;
      WithStartConcat([x], s, t);
    }
  }

  /**
   * Sorting is stable and loses nothing: for every start time, the elements
   * that start then appear in the result exactly as, and in the order, they
   * appear in the input.
   */
  lemma {:induction false} SortByStartStable(s: seq<Seg>, t: int)
    ensures WithStart(SortByStart(s), t) == WithStart(s, t)
    decreases |s|
  {
    if s != [] {
      var init, x := s[..|s| - 1], Last(s);
      var sorted := SortByStart(init);
      assert WithStart(sorted, t) == WithStart(init, t) by {
        SortByStartStable(init, t);
      }
      assert SortByStart(s) == InsertByStart(x, sorted);
      WithStartInsert(x, sorted, t);
      assert WithStart(s, t) == WithStart(init, t) + WithStart([x], t) by {
        assert s == init + [x];
        WithStartConcat(init, [x], t);
      }
      assert WithStart([x], t) == (if x.startTime == t then [x] else []) by {
        assert [x][1..] == [];
      }
    }
  }

  lemma {:induction false} InsertAtEnd(x: Seg, s: seq<Seg>)
    requires SortedByStart(s)
    requires forall i :: 0 <= i < |s| ==> s[i].startTime <= x.startTime
    ensures InsertByStart(x, s) == s + [x]
    decreases |s|
  {
    if s != [] {
      SortedTail(s);
      InsertAtEnd(x, s[1..]);
      assert s == [s[0]] + s[1..];
    }
  }

  lemma SortedInit(s: seq<Seg>)
    requires SortedByStart(s) && s != []
    ensures SortedByStart(s[..|s| - 1])
    ensures forall i :: 0 <= i < |s| - 1 ==> s[i].startTime <= Last(s).startTime
  {
    var init := s[..|s| - 1];
    forall i, j | 0 <= i < j < |init| ensures init[i].startTime <= init[j].startTime {
      assert init[i] == s[i] && init[j] == s[j];
    }
    forall i | 0 <= i < |init| ensures s[i].startTime <= Last(s).startTime {
    }
  }

  /** Sorting an already sorted list changes nothing. */
  lemma {:induction false} SortSortedIdentity(s: seq<Seg>)
    requires SortedByStart(s)
    ensures SortByStart(s) == s
    decreases |s|
  {
    if s != [] {
      var init := s[..|s| - 1];
      SortedInit(s);
      SortSortedIdentity(init);
      InsertAtEnd(Last(s), init);
      assert s == init + [Last(s)];
    }
  }
}
