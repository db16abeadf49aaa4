/**
 Substring search of datastructures/utstring.h: Knuth-Morris-Pratt with the strong
 failure table, from left to right and mirrored from right to left.

 Strings are sequences of characters; the table is the caller's array, filled in place.
 */
module UtString {
  // ----- Borders and the strong failure function ------------------------------------

  /** The first b characters of s are also the last b of its first k, and b < k. */
  ghost predicate Border(s: string, k: int, b: int) {
    0 <= b < k <= |s| && s[..b] == s[k - b..k]
  }

  /** b is a border of the first k characters that does not repeat the character at k. */
  ghost predicate Fallback(s: string, k: int, b: int) {
    Border(s, k, b) && (k < |s| ==> s[b] != s[k])
  }

  /** The largest usable fallback of position k that is at most b, or -1. */
  ghost function LargestFallback(s: string, k: int, b: int): (r: int)
    requires 0 <= k <= |s| && -1 <= b < k
    ensures -1 <= r <= b
    ensures r >= 0 ==> Fallback(s, k, r)
    ensures forall c :: Fallback(s, k, c) && c <= b ==> c <= r
    decreases b + 1
  {
    if b < 0 then -1 else if Fallback(s, k, b) then b else LargestFallback(s, k, b - 1)
  }

  /** The table entry of position k. Entry |s| is the longest proper border of s. */
  ghost function Fail(s: string, k: int): (r: int)
    requires 0 <= k <= |s|
    ensures -1 <= r < k
    ensures r >= 0 ==> Fallback(s, k, r)
    ensures forall c :: Fallback(s, k, c) ==> c <= r
  {
    LargestFallback(s, k, k - 1)
  }

  /** b is the longest border of the first i characters; -1 stands for "none" at i = 0. */
  ghost predicate LongestBorder(s: string, i: int, b: int) {
    && (if i == 0 then b == -1 else Border(s, i, b))
    && forall c :: Border(s, i, c) ==> c <= b
  }

  lemma BorderOfBorder(s: string, k: int, j: int, b: int)
    requires Border(s, k, j) && 0 <= b < j
    ensures Border(s, k, b) <==> Border(s, j, b)
  {
    assert s[..j][j - b..] == s[j - b..j];
    assert s[k - j..k][j - b..] == s[k - b..k];
  }

  lemma BorderExtends(s: string, k: int, b: int)
    requires 0 <= b < k < |s|
    ensures Border(s, k + 1, b + 1) <==> Border(s, k, b) && s[b] == s[k]
  {
    assert s[..b + 1] == s[..b] + [s[b]];
    assert s[k - b..k + 1] == s[k - b..k] + [s[k]];
    if Border(s, k + 1, b + 1) {
      assert s[..b] == s[..b + 1][..b];
      assert s[..b + 1][b] == s[k - b..k + 1][b];
    }
  }

  /** j stays an upper bound of every border of s[..i] that the next character extends. */
  ghost predicate Extending(s: string, i: int, j: int)
    requires 0 <= i < |s|
  {
    && (j == -1 || Border(s, i, j))
    && forall c :: Border(s, i, c) && s[c] == s[i] ==> c <= j
  }

  lemma StartOfTable(s: string)
    ensures LongestBorder(s, 0, -1) && Fail(s, 0) == -1
  {}

  lemma StartExtending(s: string, i: int, j: int)
    requires 0 <= i < |s| && LongestBorder(s, i, j)
    ensures Extending(s, i, j)
  {}

  lemma FallBackExtending(s: string, i: int, j: int)
    requires 0 <= j < i < |s| && Extending(s, i, j) && s[i] != s[j]
    ensures Fail(s, j) < j && Extending(s, i, Fail(s, j))
  {
    var b := Fail(s, j);
    if b >= 0 {
      BorderOfBorder(s, i, j, b);
    }
    forall c | Border(s, i, c) && s[c] == s[i]
      ensures c <= b
    {
      if c < j {
        BorderOfBorder(s, i, j, c);
        assert Fallback(s, j, c);
      }
    }
  }

  lemma ExtendingDone(s: string, i: int, j: int)
    requires -1 <= j < i < |s| && Extending(s, i, j)
    requires j == -1 || s[i] == s[j]
    ensures LongestBorder(s, i + 1, j + 1)
  {
    if j >= 0 {
      BorderExtends(s, i, j);
    } else {
      assert s[..0] == s[i + 1..i + 1];
    }
    var k := i + 1;
    forall c | Border(s, k, c)
      ensures c <= j + 1
    {
      if c >= 1 {
        BorderExtends(s, i, c - 1);
      }
    }
  }

  /** The value stored at i: skip the fallback that would repeat the same character. */
  lemma StrongEntry(s: string, i: int, j: int)
    requires 0 < i < |s| && LongestBorder(s, i, j)
    ensures Fail(s, i) == if s[i] == s[j] then Fail(s, j) else j
  {
    if s[i] == s[j] {
      var b := Fail(s, j);
      forall c | 0 <= c < j
        ensures Fallback(s, i, c) <==> Fallback(s, j, c)
      {
        BorderOfBorder(s, i, j, c);
      }
    } else {
      assert Fallback(s, i, j);
    }
  }

  lemma LastEntry(s: string, j: int)
    requires LongestBorder(s, |s|, j)
    ensures Fail(s, |s|) == j
  {
    if |s| > 0 {
      assert Fallback(s, |s|, j);
    }
  }

  /**
   Fills the table from left to right, for a length that an unsigned int holds. `steps` counts
   the fallbacks taken: fewer than the needle has characters.
   */
  method BuildTable(needle: string, table: array<int>) returns (ghost steps: nat)
    requires |needle| < 0x1_0000_0000 && table.Length == |needle| + 1
    modifies table
    ensures forall k {:trigger table[k]} :: 0 <= k <= |needle| ==> table[k] == Fail(needle, k)
    ensures steps == 0 || steps < |needle|
  {
    hide *;
    var i, j := 0, -1;
    steps := 0;
    StartOfTable(needle);
    table[i] := j;
    while i < |needle|
      invariant -1 <= j < i <= |needle| && (i > 0 ==> j >= 0)
      invariant LongestBorder(needle, i, j)
      invariant forall k {:trigger table[k]} :: 0 <= k <= i ==> table[k] == Fail(needle, k)
      invariant steps <= i - j - 1
    {
      StartExtending(needle, i, j);
      while j > -1 && needle[i] != needle[j]
        invariant -1 <= j < i
        invariant Extending(needle, i, j)
        invariant forall k {:trigger table[k]} :: 0 <= k <= i ==> table[k] == Fail(needle, k)
        invariant steps <= i - j - 1
        decreases j
      {
        FallBackExtending(needle, i, j);
        j := table[j];
        steps := steps + 1;
      }
      ExtendingDone(needle, i, j);
      i := i + 1;
      j := j + 1;
      if i < |needle| {
        StrongEntry(needle, i, j);
        if needle[i] == needle[j] {
          table[i] := table[j];
        } else {
          table[i] := j;
        }
      } else {
        LastEntry(needle, j);
        table[i] := j;
      }
    }
  }

  // ----- Searching from left to right -----------------------------------------------

  ghost predicate OccursAt(haystack: string, needle: string, p: int) {
    0 <= p && p + |needle| <= |haystack| && haystack[p..p + |needle|] == needle
  }

  /** r is the first occurrence, or -1 and there is none. */
  ghost predicate IsLeftmost(haystack: string, needle: string, r: int) {
    && (r == -1 || OccursAt(haystack, needle, r))
    && forall p :: OccursAt(haystack, needle, p) ==> 0 <= r <= p
  }

  /** r is the last occurrence, or -1 and there is none. */
  ghost predicate IsRightmost(haystack: string, needle: string, r: int) {
    && (r == -1 || OccursAt(haystack, needle, r))
    && forall p :: OccursAt(haystack, needle, p) ==> p <= r
  }

  /** i characters are matched just before position j, and nothing earlier was missed. */
  ghost predicate Matched(haystack: string, needle: string, i: int, j: int) {
    && -1 <= i <= |needle| && 0 <= j <= |haystack| && i <= j
    && (i >= 0 ==> needle[..i] == haystack[j - i..j])
    && forall p :: OccursAt(haystack, needle, p) ==> p >= j - i
  }

  lemma MatchFallsBack(haystack: string, needle: string, i: int, j: int)
    requires Matched(haystack, needle, i, j) && 0 <= i < |needle| && j < |haystack|
    requires needle[i] != haystack[j]
    ensures Fail(needle, i) < i && Matched(haystack, needle, Fail(needle, i), j)
  {
    var b := Fail(needle, i);
    if b >= 0 {
      assert needle[i - b..i] == needle[..i][i - b..];
      assert haystack[j - b..j] == haystack[j - i..j][i - b..];
    }
    forall p | OccursAt(haystack, needle, p)
      ensures p >= j - b
    {
      if p <= j {
        var c := j - p;
        assert needle[c] == haystack[p..p + |needle|][c] == haystack[j];
        assert needle[..c] == haystack[p..p + |needle|][..c] == haystack[p..j];
        assert haystack[j - c..j] == haystack[j - i..j][i - c..];
        assert needle[i - c..i] == needle[..i][i - c..];
        assert Fallback(needle, i, c);
      }
    }
  }

  lemma MatchAdvances(haystack: string, needle: string, i: int, j: int)
    requires Matched(haystack, needle, i, j) && i < |needle| && j < |haystack|
    requires i == -1 || needle[i] == haystack[j]
    ensures Matched(haystack, needle, i + 1, j + 1)
  {
    if i >= 0 {
      assert needle[..i + 1] == needle[..i] + [needle[i]];
      assert haystack[j - i..j + 1] == haystack[j - i..j] + [haystack[j]];
    }
  }

  lemma StartSearch(haystack: string, needle: string)
    ensures Matched(haystack, needle, 0, 0)
  {}

  lemma SearchSucceeds(haystack: string, needle: string, j: int)
    requires Matched(haystack, needle, |needle|, j)
    ensures IsLeftmost(haystack, needle, j - |needle|)
  {
    assert needle[..|needle|] == needle;
  }

  lemma SearchFails(haystack: string, needle: string, i: int, j: int)
    requires Matched(haystack, needle, i, j) && |haystack| - j + i < |needle|
    ensures IsLeftmost(haystack, needle, -1)
  {}

  /**
   Leftmost occurrence of a non-empty needle, for lengths that an int holds. `compared` counts
   character comparisons.
   */
  method Find(haystack: string, needle: string, table: array<int>)
    returns (found: int, ghost compared: nat)
    requires 0 < |needle| < 0x8000_0000 && |haystack| < 0x8000_0000
    requires table.Length == |needle| + 1
    requires forall k {:trigger table[k]} :: 0 <= k <= |needle| ==> table[k] == Fail(needle, k)
    ensures IsLeftmost(haystack, needle, found)
    ensures compared <= 2 * |haystack|
    ensures found >= 0 ==> found + |needle| <= compared
    ensures found == -1 && |needle| <= |haystack| ==> |haystack| - |needle| < compared
  {
    hide *;
    found := -1;
    compared := 0;
    var i, j := 0, 0;
    StartSearch(haystack, needle);
    while j < |haystack| && |haystack| - j + i >= |needle|
      invariant 0 <= i < |needle| && i <= j <= |haystack|
      invariant Matched(haystack, needle, i, j)
      invariant j <= compared <= 2 * j - i
      decreases |haystack| - j
    {
      while i > -1 && needle[i] != haystack[j]
        invariant -1 <= i < |needle| && i <= j
        invariant Matched(haystack, needle, i, j)
        invariant j <= compared <= 2 * j - i && (i == -1 ==> j < compared)
        decreases i
      {
        MatchFallsBack(haystack, needle, i, j);
        compared := compared + 1;
        i := table[i];
      }
      compared := if i > -1 then compared + 1 else compared;
      MatchAdvances(haystack, needle, i, j);
      i := i + 1;
      j := j + 1;
      if i >= |needle| {
        found := j - i;
        SearchSucceeds(haystack, needle, j);
        return;
      }
    }
    SearchFails(haystack, needle, i, j);
  }

  // ----- The mirror image -----------------------------------------------------------

  ghost function Reversed(s: string): (r: string)
    ensures |r| == |s| && forall k :: 0 <= k < |s| ==> r[k] == s[|s| - 1 - k]
  {
    seq(|s|, k requires 0 <= k < |s| => s[|s| - 1 - k])
  }

  lemma ReversedSlice(s: string, lo: int, hi: int)
    requires 0 <= lo <= hi <= |s|
    ensures Reversed(s)[|s| - hi..|s| - lo] == Reversed(s[lo..hi])
  {}

  lemma ReversedInjective(s: string, t: string)
    requires Reversed(s) == Reversed(t)
    ensures s == t
  {
    assert |s| == |t|;
    forall k | 0 <= k < |s|
      ensures s[k] == t[k]
    {
      assert Reversed(s)[|s| - 1 - k] == Reversed(t)[|s| - 1 - k];
    }
  }

  lemma OccursMirrored(haystack: string, needle: string, p: int)
    ensures OccursAt(haystack, needle, p)
       <==> OccursAt(Reversed(haystack), Reversed(needle), |haystack| - |needle| - p)
  {
    if 0 <= p && p + |needle| <= |haystack| {
      ReversedSlice(haystack, p, p + |needle|);
      if Reversed(haystack[p..p + |needle|]) == Reversed(needle) {
        ReversedInjective(haystack[p..p + |needle|], needle);
      }
    }
  }

  /** r in the strings is l in their mirror images; -1 stands for "not found" in both. */
  predicate Mirrored(haystack: string, needle: string, r: int, l: int) {
    if r == -1 || l == -1 then r == l else r + l == |haystack| - |needle|
  }

  /** Searching backwards is searching the reversed strings forwards, index for index. */
  lemma SearchMirrored(haystack: string, needle: string, r: int, l: int)
    requires Mirrored(haystack, needle, r, l)
    ensures IsRightmost(haystack, needle, r) <==> IsLeftmost(Reversed(haystack), Reversed(needle), l)
  {
    var h, n := Reversed(haystack), Reversed(needle);
    forall p
      ensures OccursAt(haystack, needle, p) <==> OccursAt(h, n, |haystack| - |needle| - p)
    {
      OccursMirrored(haystack, needle, p);
    }
    forall p
      ensures OccursAt(h, n, p) <==> OccursAt(haystack, needle, |haystack| - |needle| - p)
    {
      OccursMirrored(haystack, needle, |haystack| - |needle| - p);
    }
  }

  /**
   The characters after i also start what has matched from k on, and the one at i does not
   repeat the one before k, at which the match failed.
   */
  ghost predicate FallbackR(s: string, k: int, i: int) {
    && 0 <= k <= i < |s|
    && s[i + 1..] == s[k..k + |s| - 1 - i]
    && (k > 0 ==> s[i] != s[k - 1])
  }

  ghost function SmallestFallbackR(s: string, k: int, i: int): (r: int)
    requires 0 <= k <= i <= |s|
    ensures i <= r <= |s|
    ensures r < |s| ==> FallbackR(s, k, r)
    ensures forall c :: FallbackR(s, k, c) && i <= c ==> r <= c
    decreases |s| - i
  {
    if i == |s| then |s| else if FallbackR(s, k, i) then i else SmallestFallbackR(s, k, i + 1)
  }

  /** Entry k of the right-to-left table: the first usable fallback, or the needle's length. */
  ghost function FailR(s: string, k: int): (r: int)
    requires 0 <= k <= |s|
    ensures k <= r <= |s|
    ensures r < |s| ==> FallbackR(s, k, r)
    ensures forall c :: FallbackR(s, k, c) ==> r <= c
  {
    SmallestFallbackR(s, k, k)
  }

  lemma SameWhenReversed(s: string, t: string)
    ensures Reversed(s) == Reversed(t) <==> s == t
  {
    if Reversed(s) == Reversed(t) {
      ReversedInjective(s, t);
    }
  }

  lemma SlicesMirrored(s: string, k: int, i: int)
    requires 0 <= k <= i < |s|
    ensures var n, r := |s|, Reversed(s);
      s[i + 1..] == s[k..k + n - 1 - i] <==> r[..n - 1 - i] == r[i + 1 - k..n - k]
  {
    var n, r := |s|, Reversed(s);
    var a, b := s[i + 1..], s[k..k + n - 1 - i];
    ReversedSlice(s, i + 1, n);
    ReversedSlice(s, k, k + n - 1 - i);
    hide Reversed;
    assert s[i + 1..n] == a;
    assert r[..n - 1 - i] == Reversed(a) && r[i + 1 - k..n - k] == Reversed(b);
    SameWhenReversed(a, b);
  }

  lemma FallbackMirrors(s: string, k: int, i: int)
    requires 0 <= k <= |s|
    ensures FallbackR(s, k, i) <==> Fallback(Reversed(s), |s| - k, |s| - 1 - i)
  {
    var n, r := |s|, Reversed(s);
    if k <= i < n {
      SlicesMirrored(s, k, i);
      assert r[n - 1 - i] == s[i] && (k > 0 ==> r[n - k] == s[k - 1]);
      hide Reversed;
    }
  }

  /** The right-to-left table is the left-to-right table of the reversed needle, seen in a mirror. */
  lemma FailRMirrors(needle: string, i: int)
    requires -1 <= i < |needle|
    ensures FailR(needle, i + 1) == |needle| - 1 - Fail(Reversed(needle), |needle| - 1 - i)
  {
    var n, k := |needle|, i + 1;
    var r, f := FailR(needle, k), Fail(Reversed(needle), n - k);
    FallbackMirrors(needle, k, r);
    FallbackMirrors(needle, k, n - 1 - f);
    hide Fail, FailR, Fallback, FallbackR;
  }

  /**
   Fills the table from right to left; the entry for position i is kept at i + 1. The needle is
   not empty: its last position is computed unsigned.
   */
  method BuildTableR(needle: string, table: array<int>) returns (ghost steps: nat)
    requires 0 < |needle| < 0x1_0000_0000 && table.Length == |needle| + 1
    modifies table
    ensures forall k {:trigger table[k]} :: 0 <= k <= |needle| ==> table[k] == FailR(needle, k)
    ensures steps == 0 || steps < |needle|
  {
    hide *;
    ghost var m := Reversed(needle);
    StartOfTable(m);
    var last := |needle| - 1;
    var i := last;
    var j := i + 1;
    steps := 0;
    FailRMirrors(needle, i);
    table[i + 1] := j;
    while i >= 0
      invariant -1 <= i < j <= |needle| && (i < last ==> j < |needle|)
      invariant LongestBorder(m, last - i, last - j)
      invariant forall k {:trigger table[k]} :: i + 1 <= k <= |needle| ==> table[k] == FailR(needle, k)
      invariant steps <= j - i - 1
    {
      StartExtending(m, last - i, last - j);
      while j < |needle| && needle[i] != needle[j]
        invariant i < j <= |needle|
        invariant Extending(m, last - i, last - j)
        invariant forall k {:trigger table[k]} :: i + 1 <= k <= |needle| ==> table[k] == FailR(needle, k)
        invariant steps <= j - i - 1
        decreases |needle| - j
      {
        FallBackExtending(m, last - i, last - j);
        FailRMirrors(needle, j);
        j := table[j + 1];
        steps := steps + 1;
      }
      ExtendingDone(m, last - i, last - j);
      i := i - 1;
      j := j - 1;
      FailRMirrors(needle, i);
      if i >= 0 {
        StrongEntry(m, last - i, last - j);
        FailRMirrors(needle, j);
        if needle[i] == needle[j] {
          table[i + 1] := table[j + 1];
        } else {
          table[i + 1] := j;
        }
      } else {
        LastEntry(m, last - j);
        table[i + 1] := j;
      }
    }
  }

  /** Rightmost occurrence of a non-empty needle, for last positions that an int holds. */
  method FindR(haystack: string, needle: string, table: array<int>)
    returns (found: int, ghost compared: nat)
    requires 0 < |needle| < 0x8000_0000 && |haystack| <= 0x8000_0000
    requires table.Length == |needle| + 1
    requires forall k {:trigger table[k]} :: 0 <= k <= |needle| ==> table[k] == FailR(needle, k)
    ensures IsRightmost(haystack, needle, found)
    ensures compared <= 2 * |haystack|
    ensures found >= 0 ==> |haystack| - found <= compared
    ensures found == -1 && |needle| <= |haystack| ==> |haystack| - |needle| < compared
  {
    hide *;
    ghost var h, m := Reversed(haystack), Reversed(needle);
    ghost var lastH, lastN := |haystack| - 1, |needle| - 1;
    found := -1;
    compared := 0;
    var j := |haystack| - 1;
    var i := |needle| - 1;
    StartSearch(h, m);
    while j >= 0 && j >= i
      invariant 0 <= i < |needle| && -1 <= j && lastN - i <= lastH - j
      invariant Matched(h, m, lastN - i, lastH - j)
      invariant lastH - j <= compared <= 2 * (lastH - j) - (lastN - i)
      decreases j
    {
      while i < |needle| && needle[i] != haystack[j]
        invariant 0 <= i <= |needle| && lastN - i <= lastH - j
        invariant Matched(h, m, lastN - i, lastH - j)
        invariant lastH - j <= compared <= 2 * (lastH - j) - (lastN - i) && (i == |needle| ==> lastH - j < compared)
        decreases |needle| - i
      {
        MatchFallsBack(h, m, lastN - i, lastH - j);
        FailRMirrors(needle, i);
        compared := compared + 1;
        i := table[i + 1];
      }
      compared := if i < |needle| then compared + 1 else compared;
      MatchAdvances(h, m, lastN - i, lastH - j);
      i := i - 1;
      j := j - 1;
      if i < 0 {
        found := j + 1;
        SearchSucceeds(h, m, lastH - j);
        SearchMirrored(haystack, needle, found, lastH - j - |needle|);
        return;
      }
    }
    SearchFails(h, m, lastN - i, lastH - j);
    SearchMirrored(haystack, needle, -1, -1);
  }

  // ----- The one-time searches over a UT_string -------------------------------------

  /** A long or size_t kept in an int: its low 32 bits, signed. */
  function AsInt(x: int): (r: int)
    ensures -0x8000_0000 <= r < 0x8000_0000
    ensures -0x8000_0000 <= x < 0x8000_0000 ==> r == x
    ensures x >= 0 ==> r <= x
    ensures (x - r) % 0x1_0000_0000 == 0
  {
    var low := x % 0x1_0000_0000;
    if low < 0x8000_0000 then low else low - 0x1_0000_0000
  }

  lemma SliceOfSlice(s: string, from: int, to: int, lo: int, hi: int)
    requires 0 <= from <= to <= |s| && 0 <= lo <= hi <= to - from
    ensures s[from..to][lo..hi] == s[from + lo..from + hi]
  {
    var a, b := s[from..to][lo..hi], s[from + lo..from + hi];
    forall k | 0 <= k < hi - lo
      ensures a[k] == b[k]
    {
      assert s[from..to][lo + k] == s[from + lo + k];
    }
  }

  /** Occurrences in a part of a string are those of the string that lie in that part. */
  lemma OccursInSlice(s: string, from: int, to: int, needle: string)
    requires 0 <= from <= to <= |s|
    ensures forall p :: OccursAt(s[from..to], needle, p) ==> OccursAt(s, needle, p + from) && p + from + |needle| <= to
    ensures forall p :: OccursAt(s, needle, p) && from <= p && p + |needle| <= to ==> OccursAt(s[from..to], needle, p - from)
  {
    forall p | OccursAt(s[from..to], needle, p)
      ensures OccursAt(s, needle, p + from) && p + from + |needle| <= to
    {
      SliceOfSlice(s, from, to, p, p + |needle|);
    }
    forall p | OccursAt(s, needle, p) && from <= p && p + |needle| <= to
      ensures OccursAt(s[from..to], needle, p - from)
    {
      SliceOfSlice(s, from, to, p - from, p - from + |needle|);
    }
  }

  /** found is the first occurrence from `from` on that ends by `to`, or -1 and there is none. */
  ghost predicate FirstWithin(s: string, needle: string, from: int, to: int, found: int) {
    && (found == -1 || (OccursAt(s, needle, found) && from <= found && found + |needle| <= to))
    && forall p :: OccursAt(s, needle, p) && from <= p && p + |needle| <= to ==> 0 <= found <= p
  }

  /** found is the last occurrence that ends by `to`, or -1 and there is none. */
  ghost predicate LastWithin(s: string, needle: string, to: int, found: int) {
    && (found == -1 || (OccursAt(s, needle, found) && found + |needle| <= to))
    && forall p :: OccursAt(s, needle, p) && p + |needle| <= to ==> p <= found
  }

  /**
   First occurrence at or after the start, as a position of s; a negative start counts from
   the end. The search sees as many characters as its int holds: all of them below 2^31. A
   start past the end makes the length negative; as an unsigned number it passes the length
   test, and as an int it must not turn positive, or the search would read past the string.
   */
  method UtstringFind(s: string, start: int, needle: string) returns (found: int)
    requires -|s| <= start && |needle| < 0x8000_0000
    requires start > |s| ==> AsInt(|s| - start) <= 0
    ensures |needle| == 0 ==> found == -1
    ensures 0 < |needle| && start < 0 ==> FirstWithin(s, needle, |s| + start, |s| + start + AsInt(-start), found)
    ensures 0 < |needle| && start >= 0 ==> FirstWithin(s, needle, start, start + AsInt(|s| - start), found)
    ensures 0 < |needle| && |s| < 0x8000_0000 ==>
      FirstWithin(s, needle, if start < 0 then |s| + start else start, |s|, found)
  {
    found := -1;
    var from := if start < 0 then |s| + start else start;
    var length := |s| - from;
    if (length < 0 || length >= |needle|) && |needle| > 0 {
      var table := new int[|needle| + 1];
      ghost var steps := BuildTable(needle, table);
      var seen := AsInt(length);
      if seen > 0 {
        ghost var compared;
        found, compared := Find(s[from..from + seen], needle, table);
        OccursInSlice(s, from, from + seen, needle);
        if found >= 0 {
          found := found + from;
        }
      }
    }
  }

  /** Last occurrence that ends at or before the start position, with the same bounds. */
  method UtstringFindR(s: string, start: int, needle: string) returns (found: int)
    requires start < |s| && |needle| < 0x8000_0000
    requires start < -|s| - 1 ==> AsInt(|s| + start) < 0
    ensures |needle| == 0 ==> found == -1
    ensures 0 < |needle| && start < 0 ==> LastWithin(s, needle, AsInt(|s| + start) + 1, found)
    ensures 0 < |needle| && start >= 0 ==> LastWithin(s, needle, AsInt(start) + 1, found)
    ensures 0 < |needle| && |s| < 0x8000_0000 ==>
      LastWithin(s, needle, (if start < 0 then |s| + start else start) + 1, found)
  {
    found := -1;
    var length := (if start < 0 then |s| + start else start) + 1;
    if (length < 0 || length >= |needle|) && |needle| > 0 {
      var table := new int[|needle| + 1];
      ghost var steps := BuildTableR(needle, table);
      var last := AsInt(length - 1);
      if last >= 0 {
        ghost var compared;
        found, compared := FindR(s[..last + 1], needle, table);
        OccursInSlice(s, 0, last + 1, needle);
        assert s[0..last + 1] == s[..last + 1];
      }
    }
  }
}
