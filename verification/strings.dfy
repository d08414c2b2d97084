/** The JavaScript string operations the workbench relies on: `split` on a set
    of single-character separators, `join`, the `<` comparison of strings and
    the ascending sort the file list goes through before the tree is built. */
module Strings {

  /** The characters `/[\/\\]/` matches: both path separators. */
  const PathSeparators: set<char> := {'/', '\\'}

  /** Number of characters of `s` that belong to `seps`. */
  function Count(s: string, seps: set<char>): nat {
    if s == [] then 0 else (if s[0] in seps then 1 else 0) + Count(s[1..], seps)
  }

  /** `s.split(re)` where `re` matches exactly one character of `seps`. An
      empty string still yields one (empty) part, as in JavaScript. */
  function Split(s: string, seps: set<char>): (parts: seq<string>)
    ensures |parts| == Count(s, seps) + 1
  {
    if s == [] then [""]
    else
      var rest := Split(s[1..], seps);
      if s[0] in seps then [""] + rest
      else [[s[0]] + rest[0]] + rest[1..]
  }

  /** No part of a split contains a separator. */
  lemma {:induction false} SplitNoSeparators(s: string, seps: set<char>)
    ensures forall i, j :: 0 <= i < |Split(s, seps)| && 0 <= j < |Split(s, seps)[i]| ==> Split(s, seps)[i][j] !in seps
    decreases |s|
  {
    if s != [] {
      SplitNoSeparators(s[1..], seps);
      var rest := Split(s[1..], seps);
      var parts := Split(s, seps);
      if s[0] in seps {
        assert forall i :: 0 < i < |parts| ==> parts[i] == rest[i - 1];
      } else {
        var head := [s[0]] + rest[0];
        assert forall j :: 0 < j < |head| ==> head[j] == rest[0][j - 1];
        assert parts[0] == head;
        assert forall i :: 0 < i < |parts| ==> parts[i] == rest[i];
      }
    }
  }

  /** `parts.join(d)`: the parts with one `d` between neighbours. */
  function Join(parts: seq<string>, d: char): string {
    if |parts| == 0 then ""
    else if |parts| == 1 then parts[0]
    else parts[0] + [d] + Join(parts[1..], d)
  }

  /** The last element of `s.split(re)`: the text after the last separator. */
  function LastSegment(s: string, seps: set<char>): (r: string)
    ensures forall j :: 0 <= j < |r| ==> r[j] !in seps
  {
    SplitNoSeparators(s, seps);
    var parts := Split(s, seps);
    parts[|parts| - 1]
  }

  /** `r` is the tail of `s` after its last separator (`whole` when `s` has
      none and `r` is all of it). */
  predicate SuffixAfter(s: string, r: string, seps: set<char>, whole: bool) {
    && |r| <= |s| && s[|s| - |r|..] == r
    && (|r| < |s| ==> s[|s| - |r| - 1] in seps)
    && (|r| == |s| <==> whole)
  }

  /** The last part of a split is the tail of the string after its last
      separator, or the whole string when there is none. */
  lemma {:induction false} LastSegmentSuffix(s: string, seps: set<char>)
    ensures SuffixAfter(s, LastSegment(s, seps), seps, |Split(s, seps)| == 1)
    decreases |s|
  {
    if s != [] {
      var tail := s[1..];
      LastSegmentSuffix(tail, seps);
      var r := LastSegment(tail, seps);
      var single := |Split(tail, seps)| == 1;
      assert SuffixAfter(tail, r, seps, single);
      if s[0] in seps || !single {
        assert LastSegment(s, seps) == r && |Split(s, seps)| > 1 by {
          SplitCons(s[0], tail, seps);
          assert s == [s[0]] + tail;
        }
        SuffixFromTail(s, tail, r, seps, single);
      } else {
        assert LastSegment(s, seps) == [s[0]] + r && |Split(s, seps)| == 1 by {
          SplitCons(s[0], tail, seps);
          assert s == [s[0]] + tail;
        }
        SuffixWhole(s, tail, r, seps);
      }
    }
  }

  /** The inductive step when the last part lies after a separator. */
  lemma SuffixFromTail(s: string, tail: string, r: string, seps: set<char>, single: bool)
    requires s != [] && tail == s[1..] && SuffixAfter(tail, r, seps, single)
    requires s[0] in seps || !single
    ensures SuffixAfter(s, r, seps, false)
  {
    assert s[|s| - |r|..] == tail[|tail| - |r|..];
  }

  /** The inductive step when there is no separator: the last part is `s`. */
  lemma SuffixWhole(s: string, tail: string, r: string, seps: set<char>)
    requires s != [] && tail == s[1..] && SuffixAfter(tail, r, seps, true)
    requires s[0] !in seps
    ensures SuffixAfter(s, [s[0]] + r, seps, true)
  {
    assert s == [s[0]] + tail;
  }

  lemma {:induction false} JoinSnoc(parts: seq<string>, x: string, d: char)
    requires parts != []
    ensures Join(parts + [x], d) == Join(parts, d) + [d] + x
    decreases |parts|
  {
    if |parts| == 1 {
      assert parts + [x] == [parts[0], x];
    } else {
      assert (parts + [x])[1..] == parts[1..] + [x];
      JoinSnoc(parts[1..], x, d);
    }
  }

  /** Splitting on one character and joining with that character gives the
      string back. */
  lemma {:induction false} JoinSplit(s: string, d: char)
    ensures Join(Split(s, {d}), d) == s
    decreases |s|
  {
    if s != [] {
      var rest := Split(s[1..], {d});
      JoinSplit(s[1..], d);
      if s[0] != d {
        var parts := Split(s, {d});
        if |rest| > 1 {
          assert parts[1..] == rest[1..];
          assert Join(rest, d) == rest[0] + [d] + Join(rest[1..], d);
        }
      }
    }
  }

  /** Splitting the join of separator-free parts gives the parts back. */
  lemma {:induction false} SplitJoin(parts: seq<string>, d: char, seps: set<char>)
    requires parts != [] && d in seps
    requires forall i, j :: 0 <= i < |parts| && 0 <= j < |parts[i]| ==> parts[i][j] !in seps
    ensures Split(Join(parts, d), seps) == parts
    decreases |parts|, |parts[0]|, 1
  {
    if |parts| == 1 {
      SplitFree(parts[0], seps);
    } else if parts[0] == "" {
      SplitJoinEmptyHead(parts, d, seps);
    } else {
      SplitJoinCharHead(parts, d, seps);
    }
  }

  /** `SplitJoin` when the first part is empty: the string starts with `d`. */
  lemma {:induction false} SplitJoinEmptyHead(parts: seq<string>, d: char, seps: set<char>)
    requires |parts| > 1 && parts[0] == "" && d in seps
    requires forall i, j :: 0 <= i < |parts| && 0 <= j < |parts[i]| ==> parts[i][j] !in seps
    ensures Split(Join(parts, d), seps) == parts
    decreases |parts|, |parts[0]|, 0
  {
    var rest := parts[1..];
    assert forall i, j :: 0 <= i < |rest| && 0 <= j < |rest[i]| ==> rest[i][j] !in seps by {
      assert forall i :: 0 <= i < |rest| ==> rest[i] == parts[i + 1];
    }
    SplitJoin(rest, d, seps);
    assert Join(parts, d) == [d] + Join(rest, d);
    SplitCons(d, Join(rest, d), seps);
    assert parts == [""] + rest;
  }

  /** `SplitJoin` when the first part is not empty: its first character
      starts the string. */
  lemma {:induction false} SplitJoinCharHead(parts: seq<string>, d: char, seps: set<char>)
    requires |parts| > 1 && parts[0] != "" && d in seps
    requires forall i, j :: 0 <= i < |parts| && 0 <= j < |parts[i]| ==> parts[i][j] !in seps
    ensures Split(Join(parts, d), seps) == parts
    decreases |parts|, |parts[0]|, 0
  {
    var c := parts[0][0];
    var shorter := [parts[0][1..]] + parts[1..];
    assert forall i, j :: 0 <= i < |shorter| && 0 <= j < |shorter[i]| ==> shorter[i][j] !in seps by {
      assert forall j :: 0 <= j < |shorter[0]| ==> shorter[0][j] == parts[0][j + 1];
      assert forall i :: 1 <= i < |shorter| ==> shorter[i] == parts[i];
    }
    SplitJoin(shorter, d, seps);
    assert Join(parts, d) == [c] + Join(shorter, d) by {
      assert shorter[1..] == parts[1..];
    }
    assert c !in seps;
    SplitCons(c, Join(shorter, d), seps);
    assert [c] + parts[0][1..] == parts[0];
    assert parts == [parts[0]] + parts[1..];
  }

  /** Splitting a string one character longer at the front. */
  lemma SplitCons(c: char, s: string, seps: set<char>)
    ensures c in seps ==> Split([c] + s, seps) == [""] + Split(s, seps)
    ensures c !in seps ==> Split([c] + s, seps) == [[c] + Split(s, seps)[0]] + Split(s, seps)[1..]
  {
    assert ([c] + s)[1..] == s;
  }

  /** A string without separators splits into itself alone. */
  lemma {:induction false} SplitFree(s: string, seps: set<char>)
    requires forall j :: 0 <= j < |s| ==> s[j] !in seps
    ensures Split(s, seps) == [s]
    decreases |s|
  {
    if s != [] {
      SplitFree(s[1..], seps);
      assert [s[0]] + s[1..] == s;
    }
  }

  /** Splitting on `/` alone gives as many parts as splitting on both
      separators exactly when the string holds no backslash. */
  lemma {:induction false} SlashOnlyCount(s: string)
    ensures Count(s, {'/'}) == Count(s, PathSeparators) <==> '\\' !in s
    decreases |s|
  {
    if s != [] {
      SlashOnlyCount(s[1..]);
      assert Count(s[1..], {'/'}) <= Count(s[1..], PathSeparators) by {
        CountMonotone(s[1..]);
      }
      assert s == [s[0]] + s[1..];
    }
  }

  lemma {:induction false} CountMonotone(s: string)
    ensures Count(s, {'/'}) <= Count(s, PathSeparators)
    decreases |s|
  {
    if s != [] {
      CountMonotone(s[1..]);
    }
  }

  /** JavaScript's `a < b` on strings: lexicographic order on characters,
      where a proper prefix comes first. */
  predicate LexLess(a: string, b: string)
    decreases |a|
  {
    if a == [] then b != []
    else if b == [] then false
    else if a[0] != b[0] then a[0] < b[0]
    else LexLess(a[1..], b[1..])
  }

  lemma {:induction false} LexLessIrreflexive(a: string)
    ensures !LexLess(a, a)
    decreases |a|
  {
    if a != [] {
      LexLessIrreflexive(a[1..]);
    }
  }

  lemma {:induction false} LexLessTransitive(a: string, b: string, c: string)
    requires LexLess(a, b) && LexLess(b, c)
    ensures LexLess(a, c)
    decreases |a|
  {
    if a != [] && b != [] && c != [] && a[0] == b[0] && b[0] == c[0] {
      LexLessTransitive(a[1..], b[1..], c[1..]);
    }
  }

  /** Any two different strings are ordered one way or the other. */
  lemma {:induction false} LexLessTotal(a: string, b: string)
    requires a != b
    ensures LexLess(a, b) || LexLess(b, a)
    decreases |a|
  {
    if a != [] && b != [] && a[0] == b[0] {
      assert a == [a[0]] + a[1..];
      assert b == [b[0]] + b[1..];
      LexLessTotal(a[1..], b[1..]);
    }
  }

  /** `s` is in ascending order: no later element is below an earlier one. */
  predicate Ascending(s: seq<string>) {
    forall i, j :: 0 <= i < j < |s| ==> !LexLess(s[j], s[i])
  }

  /** Puts `x` in front of the first element of the ascending `s` that is above it. */
  function InsertSorted(x: string, s: seq<string>): (r: seq<string>)
    requires Ascending(s)
    ensures Ascending(r)
    ensures multiset(r) == multiset(s) + multiset{x}
  {
    if s == [] then [x]
    else if LexLess(x, s[0]) then
      InsertFront(x, s);
      [x] + s
    else
      var tail := InsertSorted(x, s[1..]);
      assert s == [s[0]] + s[1..];
      KeepFront(x, s, tail);
      [s[0]] + tail
  }

  lemma InsertFront(x: string, s: seq<string>)
    requires Ascending(s) && s != [] && LexLess(x, s[0])
    ensures Ascending([x] + s)
  {
    forall j | 0 <= j < |s|
      ensures !LexLess(s[j], x)
    {
      if LexLess(s[j], x) {
        LexLessTransitive(s[j], x, s[0]);
        if j == 0 {
          LexLessIrreflexive(s[0]);
        }
      }
    }
  }

  lemma KeepFront(x: string, s: seq<string>, tail: seq<string>)
    requires Ascending(s) && s != [] && !LexLess(x, s[0])
    requires Ascending(tail) && multiset(tail) == multiset(s[1..]) + multiset{x}
    ensures Ascending([s[0]] + tail)
  {
    forall k | 0 <= k < |tail|
      ensures !LexLess(tail[k], s[0])
    {
      assert tail[k] in multiset(tail);
      if tail[k] != x {
        assert tail[k] in multiset(s[1..]);
        var m :| 0 <= m < |s[1..]| && s[1..][m] == tail[k];
        assert s[m + 1] == tail[k];
      }
    }
  }

  /** `files.sort((a, b) => a < b ? -1 : 1)`: the ascending arrangement of the
      same strings. */
  function SortAscending(s: seq<string>): (r: seq<string>)
    ensures Ascending(r)
    ensures multiset(r) == multiset(s)
  {
    if s == [] then []
    else
      assert s == [s[0]] + s[1..];
      InsertSorted(s[0], SortAscending(s[1..]))
  }

  /** There is only one ascending arrangement of a multiset of strings, so the
      order the sort produces does not depend on how it got there. */
  lemma {:induction false} AscendingUnique(a: seq<string>, b: seq<string>)
    requires Ascending(a) && Ascending(b)
    requires multiset(a) == multiset(b)
    ensures a == b
    decreases |a|
  {
    if a != [] {
      assert |b| == |multiset(b)| == |multiset(a)| == |a|;
      AscendingHead(a, b);
      assert multiset(a[1..]) == multiset(b[1..]) by {
        assert a == [a[0]] + a[1..];
        assert b == [b[0]] + b[1..];
        assert multiset(a) == multiset{a[0]} + multiset(a[1..]);
        assert multiset(b) == multiset{b[0]} + multiset(b[1..]);
        assert multiset(a[1..]) == multiset(a) - multiset{a[0]};
        assert multiset(b[1..]) == multiset(b) - multiset{b[0]};
      }
      AscendingUnique(a[1..], b[1..]);
      assert a == [a[0]] + a[1..];
      assert b == [b[0]] + b[1..];
    }
  }

  /** Two ascending arrangements of the same strings start alike. */
  lemma AscendingHead(a: seq<string>, b: seq<string>)
    requires Ascending(a) && Ascending(b)
    requires multiset(a) == multiset(b) && a != [] && b != []
    ensures a[0] == b[0]
  {
    assert a[0] in multiset(b);
    assert b[0] in multiset(a);
    var i :| 0 <= i < |b| && b[i] == a[0];
    var j :| 0 <= j < |a| && a[j] == b[0];
    if a[0] != b[0] {
      assert !LexLess(a[0], b[0]) && !LexLess(b[0], a[0]);
      LexLessTotal(a[0], b[0]);
      assert false;
    }
  }
}
