/** The few Python string operations the inline splitter relies on, for a
    non-empty separator `d`: `s.find(d, from)`, `s.split(d)`, `s.count(d)`
    and `s.replace(d, "")`. All of them scan left to right and consume
    occurrences without overlap, as CPython does. */
module Strings {
  import opened Wrappers

  /** `d` occurs in `s` starting at index `i`. */
  predicate OccursAt(s: string, d: string, i: nat) {
    i + |d| <= |s| && s[i..i + |d|] == d
  }

  /** `d` occurs somewhere in `s` (Python's `d in s`). */
  predicate Contains(s: string, d: string) {
    exists i: nat | i <= |s| :: OccursAt(s, d, i)
  }

  /** Python's `s.find(d, from)`: the least index at or after `from` where `d` occurs. */
  function FindFrom(s: string, d: string, from: nat): (r: Option<nat>)
    decreases |s| - from
    ensures r.Some? ==> from <= r.value && OccursAt(s, d, r.value)
    ensures r.Some? ==> forall j: nat :: from <= j < r.value ==> !OccursAt(s, d, j)
    ensures r.None? ==> forall j: nat :: from <= j ==> !OccursAt(s, d, j)
  {
    if from + |d| > |s| then None
    else if s[from..from + |d|] == d then Some(from)
    else FindFrom(s, d, from + 1)
  }

  /** Python's `s.split(d)` for a non-empty separator: cut at the leftmost
      occurrence, then split what follows that occurrence. */
  function Split(s: string, d: string): (r: seq<string>)
    requires |d| > 0
    decreases |s|
    ensures |r| >= 1
    ensures FindFrom(s, d, 0).Some? ==> |r| >= 2
  {
    match FindFrom(s, d, 0)
    case None => [s]
    case Some(i) => [s[..i]] + Split(s[i + |d|..], d)
  }

  /** Python's `s.count(d)` for a non-empty `d`: non-overlapping occurrences, leftmost first. */
  function Count(s: string, d: string): (r: nat)
    requires |d| > 0
    decreases |s|
  {
    match FindFrom(s, d, 0)
    case None => 0
    case Some(i) => 1 + Count(s[i + |d|..], d)
  }

  /** No occurrence is counted exactly when `d` does not occur. */
  lemma CountZero(s: string, d: string)
    requires |d| > 0
    ensures Count(s, d) == 0 <==> !Contains(s, d)
  {
    match FindFrom(s, d, 0)
    case None =>
    case Some(i) =>
      assert OccursAt(s, d, i);
  }

  /** Python's `s.replace(d, "")`, written as a character scan: at each
      position either a whole occurrence of `d` is dropped or one character is kept. */
  function RemoveAll(s: string, d: string): string
    requires |d| > 0
    decreases |s|
  {
    if |s| == 0 then ""
    else if d <= s then RemoveAll(s[|d|..], d)
    else [s[0]] + RemoveAll(s[1..], d)
  }

  /** Python's `d.join(pieces)`. */
  function Join(pieces: seq<string>, d: string): string {
    if |pieces| == 0 then ""
    else if |pieces| == 1 then pieces[0]
    else pieces[0] + d + Join(pieces[1..], d)
  }

  /** Python's `"".join(pieces)`. */
  function Concat(pieces: seq<string>): string {
    if |pieces| == 0 then "" else pieces[0] + Concat(pieces[1..])
  }

  /** The pieces of a split, joined back with the separator, give the original string. */
  lemma {:induction false} SplitJoin(s: string, d: string)
    requires |d| > 0
    decreases |s|
    ensures Join(Split(s, d), d) == s
  {
    match FindFrom(s, d, 0)
    case None =>
    case Some(i) =>
      var rest := s[i + |d|..];
      var tail := Split(rest, d);
      SplitJoin(rest, d);
      assert Split(s, d) == [s[..i]] + tail;
      assert Join([s[..i]] + tail, d) == s[..i] + d + Join(tail, d) by {
        assert ([s[..i]] + tail)[1..] == tail;
      }
      assert s == s[..i] + s[i..i + |d|] + rest;
  }

  /** A split yields exactly one more piece than there are occurrences of the separator. */
  lemma {:induction false} SplitLength(s: string, d: string)
    requires |d| > 0
    decreases |s|
    ensures |Split(s, d)| == Count(s, d) + 1
  {
    match FindFrom(s, d, 0)
    case None =>
    case Some(i) =>
      SplitLength(s[i + |d|..], d);
  }

  /** No piece of a split contains the separator. */
  lemma {:induction false} SplitPiecesFree(s: string, d: string)
    requires |d| > 0
    decreases |s|
    ensures forall k :: 0 <= k < |Split(s, d)| ==> !Contains(Split(s, d)[k], d)
  {
    var r := Split(s, d);
    match FindFrom(s, d, 0)
    case None =>
      assert r == [s];
      assert !Contains(s, d);
    case Some(i) =>
      var rest := s[i + |d|..];
      SplitPiecesFree(rest, d);
      assert r == [s[..i]] + Split(rest, d);
      PrefixBeforeFirstIsFree(s, d, i);
      forall k | 0 <= k < |r|
        ensures !Contains(r[k], d)
      {
        if k > 0 {
          assert r[k] == Split(rest, d)[k - 1];
        }
      }
  }

  /** The text before the leftmost occurrence of `d` does not contain `d`. */
  lemma PrefixBeforeFirstIsFree(s: string, d: string, i: nat)
    requires |d| > 0 && i <= |s|
    requires forall j: nat :: j < i ==> !OccursAt(s, d, j)
    ensures !Contains(s[..i], d)
  {
    if Contains(s[..i], d) {
      var j: nat :| j <= i && OccursAt(s[..i], d, j);
      assert j + |d| <= i;
      assert s[..i][j..j + |d|] == s[j..j + |d|];
      assert OccursAt(s, d, j);
      assert false;
    }
  }

  /** A string without occurrences of `d` is its own single split piece. */
  lemma NoOccurrenceSplit(s: string, d: string)
    requires |d| > 0
    requires !Contains(s, d)
    ensures Split(s, d) == [s]
  {
  }

  /** Scanning forward over positions where `d` does not start keeps every character. */
  lemma {:induction false} RemoveAllUpTo(s: string, d: string, k: nat, i: nat)
    requires |d| > 0
    requires k <= i && OccursAt(s, d, i)
    requires forall j: nat :: k <= j < i ==> !OccursAt(s, d, j)
    decreases i - k
    ensures RemoveAll(s[k..], d) == s[k..i] + RemoveAll(s[i + |d|..], d)
  {
    var t := s[k..];
    if k == i {
      assert t[..|d|] == s[i..i + |d|];
      assert d <= t;
      assert t[|d|..] == s[i + |d|..];
    } else {
      assert !OccursAt(s, d, k);
      assert !(d <= t);
      assert t[1..] == s[k + 1..];
      RemoveAllUpTo(s, d, k + 1, i);
      assert s[k..i] == [s[k]] + s[k + 1..i];
    }
  }

  /** Without any occurrence of `d`, removing `d` changes nothing. */
  lemma {:induction false} RemoveAllFree(s: string, d: string, k: nat)
    requires |d| > 0 && k <= |s|
    requires forall j: nat :: k <= j ==> !OccursAt(s, d, j)
    decreases |s| - k
    ensures RemoveAll(s[k..], d) == s[k..]
  {
    var t := s[k..];
    if k < |s| {
      assert !OccursAt(s, d, k);
      assert !(d <= t);
      assert t[1..] == s[k + 1..];
      RemoveAllFree(s, d, k + 1);
    }
  }

  /** Gluing the pieces of a split together is the same as deleting every occurrence of the separator. */
  lemma {:induction false} ConcatSplit(s: string, d: string)
    requires |d| > 0
    decreases |s|
    ensures Concat(Split(s, d)) == RemoveAll(s, d)
  {
    match FindFrom(s, d, 0)
    case None =>
      RemoveAllFree(s, d, 0);
      assert s[0..] == s;
    case Some(i) =>
      var rest := s[i + |d|..];
      ConcatSplit(rest, d);
      RemoveAllUpTo(s, d, 0, i);
      assert s[0..] == s;
      assert Split(s, d) == [s[..i]] + Split(rest, d);
      assert s[0..i] == s[..i];
  }

  /** When the separator's first character does not appear in `first`, the
      leftmost occurrence in `first + d + rest` is the one right after `first`. */
  lemma FindAfterFree(first: string, d: string, rest: string)
    requires |d| > 0 && d[0] !in first
    ensures FindFrom(first + d + rest, d, 0) == Some(|first|)
  {
    var s := first + d + rest;
    assert OccursAt(s, d, |first|) by {
      assert s[|first|..|first| + |d|] == d;
    }
    forall j: nat | j < |first|
      ensures !OccursAt(s, d, j)
    {
      assert s[j] == first[j];
      if j + |d| <= |s| {
        assert s[j..j + |d|][0] == s[j];
      }
    }
    var r := FindFrom(s, d, 0);
    assert r.Some? && !(r.value < |first|) && !(|first| < r.value);
  }

  /** When the separator's first character does not appear in `s`, the
      separator is not found. */
  lemma FindNoHead(s: string, d: string)
    requires |d| > 0 && d[0] !in s
    ensures FindFrom(s, d, 0) == None
  {
    forall j: nat
      ensures !OccursAt(s, d, j)
    {
      if j + |d| <= |s| {
        assert s[j..j + |d|][0] == s[j];
      }
    }
  }

  /** A first piece that cannot start an occurrence is cut off at the
      separator that follows it. */
  lemma SplitAfterFree(first: string, d: string, rest: string)
    requires |d| > 0 && d[0] !in first
    ensures Split(first + d + rest, d) == [first] + Split(rest, d)
  {
    var s := first + d + rest;
    FindAfterFree(first, d, rest);
    assert s[..|first|] == first;
    assert s[|first| + |d|..] == rest;
  }

  /** A string in which no occurrence can start is a single piece. */
  lemma SplitNoHead(s: string, d: string)
    requires |d| > 0 && d[0] !in s
    ensures Split(s, d) == [s]
  {
    FindNoHead(s, d);
  }
}
