/** Rust's literal string operations used by the TM2 compiler, over `seq<char>`:
    `str::replace` (leftmost, non-overlapping, single pass), `str::matches(..).count()`,
    `str::contains`, `str::split` and `[String]::join`, `str::len` (a UTF-8 byte count),
    together with the counting theory that tells how many times a pattern occurs after a
    replacement. */
module Strings {

  /** No character of `s` is one of `bad`. */
  predicate Avoids(s: string, bad: string) {
    forall k :: 0 <= k < |s| ==> s[k] !in bad
  }

  /** Bytes of the UTF-8 encoding of one character. */
  function Utf8Width(c: char): (w: nat)
    ensures 1 <= w <= 4
    ensures w == 1 <==> (c as int) < 0x80
  {
    if (c as int) < 0x80 then 1
    else if (c as int) < 0x800 then 2
    else if (c as int) < 0x1_0000 then 3
    else 4
  }

  /** `str::len`: the length of the UTF-8 encoding, in bytes. */
  function Utf8Len(s: string): (n: nat)
    ensures |s| <= n <= 4 * |s|
    decreases |s|
  {
    if |s| == 0 then 0 else Utf8Len(s[..|s| - 1]) + Utf8Width(s[|s| - 1])
  }

  predicate IsAscii(s: string) {
    forall k :: 0 <= k < |s| ==> (s[k] as int) < 0x80
  }

  /** Byte length and character count agree exactly on ASCII text. */
  lemma {:induction false} Utf8LenAscii(s: string)
    ensures Utf8Len(s) == |s| <==> IsAscii(s)
    decreases |s|
  {
    if |s| > 0 {
      var init := s[..|s| - 1];
      Utf8LenAscii(init);
      if IsAscii(s) {
        assert IsAscii(init);
      } else if IsAscii(init) {
        assert Utf8Width(s[|s| - 1]) > 1;
      } else {
        assert Utf8Len(init) > |init|;
      }
    }
  }

  /** `p` occurs in `s` starting at index `i`. */
  predicate OccursAt(s: string, p: string, i: int) {
    0 <= i && i + |p| <= |s| && s[i..i + |p|] == p
  }

  /** `str::contains`. */
  predicate Contains(s: string, p: string) {
    exists i :: 0 <= i <= |s| - |p| && OccursAt(s, p, i)
  }

  /** `s.matches(p).count()`: leftmost, non-overlapping occurrences of `p`. */
  function Count(s: string, p: string): nat
    requires |p| > 0
    decreases |s|
  {
    if |s| < |p| then 0
    else if s[..|p|] == p then 1 + Count(s[|p|..], p)
    else Count(s[1..], p)
  }

  /** `s.replace(q, r)`: every leftmost, non-overlapping occurrence of `q` is replaced
      by `r`; the scan resumes after the replaced occurrence, so `r` is never rescanned. */
  function Replace(s: string, q: string, r: string): string
    requires |q| > 0
    decreases |s|
  {
    if |s| < |q| then s
    else if s[..|q|] == q then r + Replace(s[|q|..], q, r)
    else [s[0]] + Replace(s[1..], q, r)
  }

  /** `s.split(q)`: the pieces between leftmost, non-overlapping occurrences of `q`. */
  function Split(s: string, q: string): (parts: seq<string>)
    requires |q| > 0
    ensures |parts| >= 1 && parts[0] <= s
    decreases |s|
  {
    if |s| < |q| then [s]
    else if s[..|q|] == q then [""] + Split(s[|q|..], q)
    else
      var rest := Split(s[1..], q);
      [[s[0]] + rest[0]] + rest[1..]
  }

  /** `parts.join(sep)`. */
  function Join(parts: seq<string>, sep: string): string
    decreases |parts|
  {
    if |parts| == 0 then ""
    else if |parts| == 1 then parts[0]
    else parts[0] + (sep + Join(parts[1..], sep))
  }

  /** Number of separators `Join` puts between `n` pieces. */
  function Separators(n: nat): nat {
    if n == 0 then 0 else n - 1
  }

  /** Sum of the counts of `p` in every piece. */
  function SumCounts(parts: seq<string>, p: string): nat
    requires |p| > 0
    decreases |parts|
  {
    if |parts| == 0 then 0 else Count(parts[0], p) + SumCounts(parts[1..], p)
  }

  /** No occurrence of `p` in `a + b` starts inside `a` and ends inside `b`. */
  predicate NoStraddle(a: string, b: string, p: string) {
    forall i :: 0 <= i < |a| < i + |p| <= |a| + |b| ==> !OccursAt(a + b, p, i)
  }

  /** `p` starting `j` characters before a separator `sep` agrees with `sep` (and with
      the text after it, which the caller does not control) on every character the two
      share. */
  predicate EntryClash(sep: string, p: string, j: int)
    requires 0 < j < |p|
  {
    var m := if |sep| < |p| - j then |sep| else |p| - j;
    sep[..m] == p[j..j + m]
  }

  /** No occurrence of `p` can begin in whatever text stands before `sep` and reach into it. */
  predicate EntrySafe(sep: string, p: string) {
    forall j :: 0 < j < |p| ==> !EntryClash(sep, p, j)
  }

  /** No occurrence of `p` can begin inside `sep` and reach past its end: no nonempty
      suffix of `sep` is a proper prefix of `p`. */
  predicate ExitSafe(sep: string, p: string) {
    forall i :: 0 <= i < |sep| && |sep| - i < |p| ==> !ExitClash(sep, p, i)
  }

  /** The suffix of `sep` from `i` on is a proper prefix of `p`. */
  predicate ExitClash(sep: string, p: string, i: int)
    requires 0 <= i < |sep| && |sep| - i < |p|
  {
    sep[i..] == p[..|sep| - i]
  }

  // ---------------------------------------------------------------------------
  // Basic facts about occurrences and counts

  lemma OccursAtShift(a: string, b: string, p: string, k: nat, i: int)
    requires k <= |a| && 0 <= i
    ensures OccursAt(a[k..] + b, p, i) <==> OccursAt(a + b, p, i + k)
  {
    assert a[k..] + b == (a + b)[k..];
    if i + |p| <= |a[k..] + b| {
      assert (a[k..] + b)[i..i + |p|] == (a + b)[i + k..i + k + |p|];
    }
  }

  /** A positive count exhibits an occurrence. */
  lemma {:induction false} CountPositiveContains(s: string, p: string)
    requires |p| > 0 && Count(s, p) > 0
    ensures Contains(s, p)
    decreases |s|
  {
    if s[..|p|] == p {
      assert OccursAt(s, p, 0);
    } else {
      CountPositiveContains(s[1..], p);
      var i :| 0 <= i <= |s[1..]| - |p| && OccursAt(s[1..], p, i);
      assert s[i + 1..i + 1 + |p|] == s[1..][i..i + |p|];
      assert OccursAt(s, p, i + 1);
    }
  }

  /** An occurrence makes the count positive. */
  lemma {:induction false} ContainsCountPositive(s: string, p: string)
    requires |p| > 0 && Contains(s, p)
    ensures Count(s, p) > 0
    decreases |s|
  {
    var i :| 0 <= i <= |s| - |p| && OccursAt(s, p, i);
    if s[..|p|] != p {
      assert i > 0;
      assert s[1..][i - 1..i - 1 + |p|] == s[i..i + |p|];
      assert OccursAt(s[1..], p, i - 1);
      ContainsCountPositive(s[1..], p);
    }
  }

  /** A count is zero exactly when the pattern does not occur. */
  lemma CountZeroIff(s: string, p: string)
    requires |p| > 0
    ensures Count(s, p) == 0 <==> !Contains(s, p)
  {
    if Count(s, p) > 0 {
      CountPositiveContains(s, p);
    }
    if Contains(s, p) {
      ContainsCountPositive(s, p);
    }
  }

  /** A character of `p` that `s` lacks rules out every occurrence. */
  lemma CountZeroByChar(s: string, p: string, c: char)
    requires |p| > 0 && c in p && c !in s
    ensures Count(s, p) == 0
  {
    var k :| 0 <= k < |p| && p[k] == c;
    forall i | 0 <= i <= |s| - |p| ensures !OccursAt(s, p, i) {
      assert s[i..i + |p|][k] == s[i + k];
    }
    CountZeroIff(s, p);
  }

  /** The pattern itself holds exactly one occurrence. */
  lemma CountSelf(p: string)
    requires |p| > 0
    ensures Count(p, p) == 1
  {
    assert p[..|p|] == p;
    assert Count(p[|p|..], p) == 0;
  }

  /** Counting distributes over a concatenation when no occurrence straddles the seam. */
  lemma {:induction false} CountConcat(a: string, b: string, p: string)
    requires |p| > 0 && NoStraddle(a, b, p)
    ensures Count(a + b, p) == Count(a, p) + Count(b, p)
    decreases |a|
  {
    var s := a + b;
    if |a| == 0 {
      assert s == b;
    } else if |s| < |p| {
    } else if s[..|p|] == p {
      assert |a| >= |p| by {
        assert OccursAt(s, p, 0);
      }
      assert a[..|p|] == s[..|p|];
      assert s[|p|..] == a[|p|..] + b;
      forall i | 0 <= i < |a[|p|..]| < i + |p| <= |a[|p|..]| + |b|
        ensures !OccursAt(a[|p|..] + b, p, i)
      {
        OccursAtShift(a, b, p, |p|, i);
      }
      CountConcat(a[|p|..], b, p);
    } else {
      assert s[1..] == a[1..] + b;
      forall i | 0 <= i < |a[1..]| < i + |p| <= |a[1..]| + |b|
        ensures !OccursAt(a[1..] + b, p, i)
      {
        OccursAtShift(a, b, p, 1, i);
      }
      CountConcat(a[1..], b, p);
      if |a| >= |p| {
        assert a[..|p|] == s[..|p|];
      }
    }
  }

  /** Concatenating three pieces whose two seams are guarded. */
  lemma CountConcat3(a: string, b: string, c: string, p: string)
    requires |p| > 0 && NoStraddle(a, b + c, p) && NoStraddle(b, c, p)
    ensures Count(a + b + c, p) == Count(a, p) + Count(b, p) + Count(c, p)
  {
    assert a + b + c == a + (b + c);
    CountConcat(b, c, p);
    CountConcat(a, b + c, p);
  }

  // ---------------------------------------------------------------------------
  // Guards: what they mean and cheap ways to establish them

  /** An occurrence reaching from `x` into `sep` is an entry clash. */
  lemma StraddleIsEntryClash(x: string, sep: string, y: string, p: string, i: int)
    requires 0 <= i < |x| < i + |p| <= |x| + |sep + y|
    requires OccursAt(x + (sep + y), p, i)
    ensures EntryClash(sep, p, |x| - i)
  {
    var s := x + (sep + y);
    var j := |x| - i;
    var m := if |sep| < |p| - j then |sep| else |p| - j;
    forall k | 0 <= k < m ensures sep[..m][k] == p[j..j + m][k] {
      assert s[|x| + k] == sep[k];
      assert s[i..i + |p|][j + k] == s[|x| + k];
    }
    assert sep[..m] == p[j..j + m];
  }

  lemma EntrySafeMeans(x: string, sep: string, y: string, p: string)
    requires EntrySafe(sep, p)
    ensures NoStraddle(x, sep + y, p)
  {
    forall i | 0 <= i < |x| < i + |p| <= |x| + |sep + y|
      ensures !OccursAt(x + (sep + y), p, i)
    {
      if OccursAt(x + (sep + y), p, i) {
        StraddleIsEntryClash(x, sep, y, p, i);
      }
    }
  }

  /** An occurrence reaching out of `sep` starts with a suffix of `sep`. */
  lemma StraddleIsExitClash(sep: string, y: string, p: string, i: int)
    requires 0 <= i < |sep| < i + |p| <= |sep| + |y|
    requires OccursAt(sep + y, p, i)
    ensures ExitClash(sep, p, i)
  {
    var s := sep + y;
    var m := |sep| - i;
    forall k | 0 <= k < m ensures sep[i..][k] == p[..m][k] {
      assert s[i..i + |p|][k] == s[i + k];
    }
  }

  lemma ExitSafeMeans(sep: string, y: string, p: string)
    requires ExitSafe(sep, p)
    ensures NoStraddle(sep, y, p)
  {
    forall i | 0 <= i < |sep| < i + |p| <= |sep| + |y|
      ensures !OccursAt(sep + y, p, i)
    {
      if OccursAt(sep + y, p, i) {
        StraddleIsExitClash(sep, y, p, i);
      }
    }
  }

  /** A separator whose first character does not occur after the first position of `p`. */
  lemma EntryByFirstChar(sep: string, p: string)
    requires |p| > 0 && |sep| > 0 && sep[0] !in p[1..]
    ensures EntrySafe(sep, p)
  {
    forall j | 0 < j < |p| ensures !EntryClash(sep, p, j) {
      var m := if |sep| < |p| - j then |sep| else |p| - j;
      assert sep[..m][0] == sep[0];
      assert p[j..j + m][0] == p[1..][j - 1];
    }
  }

  /** A separator whose last character does not occur before the last position of `p`. */
  lemma ExitByLastChar(sep: string, p: string)
    requires |p| > 0 && |sep| > 0 && sep[|sep| - 1] !in p[..|p| - 1]
    ensures ExitSafe(sep, p)
  {
    forall i | 0 <= i < |sep| && |sep| - i < |p| ensures !ExitClash(sep, p, i) {
      var m := |sep| - i;
      assert sep[i..][m - 1] == sep[|sep| - 1];
      assert p[..m][m - 1] == p[..|p| - 1][m - 1];
    }
  }

  /** A separator that does not contain the first character of `p`. */
  lemma ExitByMissingHead(sep: string, p: string)
    requires |p| > 0 && p[0] !in sep
    ensures ExitSafe(sep, p)
  {
    forall i | 0 <= i < |sep| && |sep| - i < |p| ensures !ExitClash(sep, p, i) {
      assert sep[i..][0] == sep[i];
    }
  }

  // ---------------------------------------------------------------------------
  // Replace, Split and Join

  /** `Split` and `Count` agree: one more piece than there are occurrences. */
  lemma {:induction false} SplitLength(s: string, q: string)
    requires |q| > 0
    ensures |Split(s, q)| == Count(s, q) + 1
    decreases |s|
  {
    if |s| < |q| {
    } else if s[..|q|] == q {
      SplitLength(s[|q|..], q);
    } else {
      SplitLength(s[1..], q);
    }
  }

  /** No piece of a split holds the pattern it was split on. */
  lemma {:induction false} SplitPiecesFree(s: string, q: string)
    requires |q| > 0
    ensures forall k :: 0 <= k < |Split(s, q)| ==> Count(Split(s, q)[k], q) == 0
    decreases |s|
  {
    var parts := Split(s, q);
    if |s| < |q| {
    } else if s[..|q|] == q {
      SplitPiecesFree(s[|q|..], q);
      assert Count(parts[0], q) == 0;
      assert forall k :: 1 <= k < |parts| ==> parts[k] == Split(s[|q|..], q)[k - 1];
    } else {
      var rest := Split(s[1..], q);
      SplitPiecesFree(s[1..], q);
      var head := [s[0]] + rest[0];
      assert head <= s by {
        assert rest[0] == s[1..][..|rest[0]|];
        assert head == s[..|head|];
      }
      if |head| >= |q| {
        assert head[..|q|] == s[..|q|];
        assert head[1..] == rest[0];
      }
      assert Count(parts[0], q) == 0;
      assert forall k :: 1 <= k < |parts| ==> parts[k] == rest[k];
    }
  }

  lemma JoinCons(x: string, parts: seq<string>, sep: string)
    requires |parts| >= 1
    ensures Join([x] + parts, sep) == x + (sep + Join(parts, sep))
  {
    assert ([x] + parts)[1..] == parts;
  }

  /** `Replace` is `Join` of `Split`: each occurrence becomes one copy of the replacement. */
  lemma {:induction false} ReplaceIsJoinOfSplit(s: string, q: string, r: string)
    requires |q| > 0
    ensures Replace(s, q, r) == Join(Split(s, q), r)
    decreases |s|
  {
    if |s| < |q| {
    } else if s[..|q|] == q {
      ReplaceIsJoinOfSplit(s[|q|..], q, r);
      JoinCons("", Split(s[|q|..], q), r);
    } else {
      ReplaceIsJoinOfSplit(s[1..], q, r);
      var rest := Split(s[1..], q);
      if |rest| == 1 {
      } else {
        JoinCons(rest[0], rest[1..], r);
        JoinCons([s[0]] + rest[0], rest[1..], r);
        assert [rest[0]] + rest[1..] == rest;
      }
    }
  }

  /** Replacing a pattern by itself changes nothing. */
  lemma {:induction false} ReplaceSelf(s: string, q: string)
    requires |q| > 0
    ensures Replace(s, q, q) == s
    decreases |s|
  {
    if |s| < |q| {
    } else if s[..|q|] == q {
      ReplaceSelf(s[|q|..], q);
      assert s == s[..|q|] + s[|q|..];
    } else {
      ReplaceSelf(s[1..], q);
      assert s == [s[0]] + s[1..];
    }
  }

  /** Round trip: joining the pieces of a split with the pattern gives the text back. */
  lemma SplitJoinRoundTrip(s: string, q: string)
    requires |q| > 0
    ensures Join(Split(s, q), q) == s
  {
    ReplaceIsJoinOfSplit(s, q, q);
    ReplaceSelf(s, q);
  }

  /** Count of `p` in a join: the pieces' counts plus the separators' counts, when the
      separator is guarded on both sides. */
  lemma {:induction false} CountJoin(parts: seq<string>, sep: string, p: string)
    requires |p| > 0 && EntrySafe(sep, p) && ExitSafe(sep, p)
    ensures Count(Join(parts, sep), p) == SumCounts(parts, p) + Separators(|parts|) * Count(sep, p)
    decreases |parts|
  {
    if |parts| <= 1 {
    } else {
      var rest := Join(parts[1..], sep);
      assert Join(parts, sep) == parts[0] + (sep + rest);
      CountJoin(parts[1..], sep, p);
      EntrySafeMeans(parts[0], sep, rest, p);
      CountConcat(parts[0], sep + rest, p);
      ExitSafeMeans(sep, rest, p);
      CountConcat(sep, rest, p);
      SeparatorsStep(|parts[1..]|, Count(sep, p));
    }
  }

  /** The counting law of one `replace` call, for a pattern `p` that neither the replaced
      text `q` nor the replacement `r` can straddle:
      count after + k * count(q) == count before + k * count(r), where k is the number of
      replaced occurrences. */
  lemma ReplaceCount(s: string, q: string, r: string, p: string)
    requires |q| > 0 && |p| > 0
    requires EntrySafe(q, p) && ExitSafe(q, p) && EntrySafe(r, p) && ExitSafe(r, p)
    ensures Count(Replace(s, q, r), p) + Count(s, q) * Count(q, p)
         == Count(s, p) + Count(s, q) * Count(r, p)
  {
    var parts := Split(s, q);
    ReplaceIsJoinOfSplit(s, q, r);
    SplitJoinRoundTrip(s, q);
    SplitLength(s, q);
    var k := Count(s, q);
    assert Separators(|parts|) == k;
    CountJoin(parts, r, p);
    assert Count(Replace(s, q, r), p) == SumCounts(parts, p) + k * Count(r, p);
    CountJoin(parts, q, p);
    assert Count(s, p) == SumCounts(parts, p) + k * Count(q, p);
  }

  lemma SeparatorsStep(n: nat, c: nat)
    requires n >= 1
    ensures Separators(n + 1) * c == Separators(n) * c + c
  {
    assert Separators(n + 1) == Separators(n) + 1;
  }

  /** A pattern that neither `q` nor `r` affects keeps its count through `replace`. */
  lemma ReplaceKeepsCount(s: string, q: string, r: string, p: string)
    requires |q| > 0 && Inert(q, p) && Inert(r, p)
    ensures Count(Replace(s, q, r), p) == Count(s, p)
  {
    assert Count(q, p) == 0 && Count(r, p) == 0;
    ReplaceCount(s, q, r, p);
  }

  lemma SumCountsZero(parts: seq<string>, p: string)
    requires |p| > 0
    requires forall k :: 0 <= k < |parts| ==> Count(parts[k], p) == 0
    ensures SumCounts(parts, p) == 0
    decreases |parts|
  {
    if |parts| > 0 {
      SumCountsZero(parts[1..], p);
    }
  }

  /** After `replace`, the replaced pattern is gone, provided the replacement neither
      contains it nor can combine with surrounding text to form it. */
  lemma ReplaceRemoves(s: string, q: string, r: string)
    requires |q| > 0 && Count(r, q) == 0 && EntrySafe(r, q) && ExitSafe(r, q)
    ensures Count(Replace(s, q, r), q) == 0
    ensures !Contains(Replace(s, q, r), q)
  {
    ReplaceIsJoinOfSplit(s, q, r);
    SplitPiecesFree(s, q);
    SumCountsZero(Split(s, q), q);
    CountJoin(Split(s, q), r, q);
    CountZeroIff(Replace(s, q, r), q);
  }

  // ---------------------------------------------------------------------------
  // Bundled guards, probes, barriers and containment

  /** `p` can neither reach into `s` from the left nor out of it to the right. */
  predicate Guarded(s: string, p: string) {
    EntrySafe(s, p) && ExitSafe(s, p)
  }

  /** `s` holds no occurrence of `p` and cannot take part in one with its neighbours. */
  predicate Inert(s: string, p: string) {
    |p| > 0 && Count(s, p) == 0 && Guarded(s, p)
  }

  /** Guards from the two end characters of `s`. */
  lemma GuardedByChars(s: string, p: string)
    requires |p| > 0 && |s| > 0 && s[0] !in p[1..]
    requires s[|s| - 1] !in p[..|p| - 1] || p[0] !in s
    ensures Guarded(s, p)
  {
    EntryByFirstChar(s, p);
    if s[|s| - 1] !in p[..|p| - 1] {
      ExitByLastChar(s, p);
    } else {
      ExitByMissingHead(s, p);
    }
  }

  /** Guards from the end characters, and a character `c` of `p` that `s` lacks. */
  lemma InertByChars(s: string, p: string, c: char)
    requires |p| > 0 && |s| > 0 && s[0] !in p[1..]
    requires s[|s| - 1] !in p[..|p| - 1] || p[0] !in s
    requires c in p && c !in s
    ensures Inert(s, p)
  {
    GuardedByChars(s, p);
    CountZeroByChar(s, p, c);
  }

  /** Wherever `s` agrees with the first character of `p`, it disagrees `d` characters on. */
  lemma CountZeroByProbe(s: string, p: string, d: nat)
    requires 0 < d < |p|
    requires forall k :: 0 <= k <= |s| - |p| && s[k] == p[0] ==> s[k + d] != p[d]
    ensures Count(s, p) == 0
  {
    forall i | 0 <= i <= |s| - |p| ensures !OccursAt(s, p, i) {
      if s[i] == p[0] {
        assert s[i..i + |p|][d] != p[d];
      } else {
        assert s[i..i + |p|][0] != p[0];
      }
    }
    CountZeroIff(s, p);
  }

  /** Every suffix of `sep` that starts like `p` disagrees with it `d` characters on. */
  lemma ExitByProbe(sep: string, p: string, d: nat)
    requires 0 < d < |p|
    requires forall i :: 0 <= i < |sep| && |sep| - i < |p| && sep[i] == p[0] ==>
      i + d < |sep| && sep[i + d] != p[d]
    ensures ExitSafe(sep, p)
  {
    forall i | 0 <= i < |sep| && |sep| - i < |p| ensures !ExitClash(sep, p, i) {
      if sep[i] == p[0] {
        assert sep[i..][d] != p[..|sep| - i][d];
      } else {
        assert sep[i..][0] != p[..|sep| - i][0];
      }
    }
  }

  /** A first character of `b` that `p` lacks stops an occurrence entering `a + b` from
      getting past `a`. */
  lemma EntryByBarrier(a: string, b: string, p: string)
    requires EntrySafe(a, p) && |b| > 0 && b[0] !in p
    ensures EntrySafe(a + b, p)
  {
    var sep := a + b;
    forall j | 0 < j < |p| ensures !EntryClash(sep, p, j) {
      var m := if |sep| < |p| - j then |sep| else |p| - j;
      if m > |a| {
        assert sep[..m][|a|] == b[0];
        assert p[j..j + m][|a|] == p[j + |a|];
      } else {
        assert !EntryClash(a, p, j);
        assert sep[..m] == a[..m];
      }
    }
  }

  /** A last character of `a` that `p` lacks stops an occurrence leaving `a + b` from
      starting before `b`. */
  lemma ExitByBarrier(a: string, b: string, p: string)
    requires ExitSafe(b, p) && |a| > 0 && a[|a| - 1] !in p
    ensures ExitSafe(a + b, p)
  {
    var sep := a + b;
    forall i | 0 <= i < |sep| && |sep| - i < |p| ensures !ExitClash(sep, p, i) {
      if i < |a| {
        assert sep[i..][|a| - 1 - i] == a[|a| - 1];
        assert p[..|sep| - i][|a| - 1 - i] == p[|a| - 1 - i];
      } else {
        assert sep[i..] == b[i - |a|..];
        assert !ExitClash(b, p, i - |a|);
      }
    }
  }

  /** Counting across a guarded text `sep` between two arbitrary texts. */
  lemma CountAround(x: string, sep: string, y: string, p: string)
    requires |p| > 0 && Guarded(sep, p)
    ensures Count(x + sep + y, p) == Count(x, p) + Count(sep, p) + Count(y, p)
  {
    EntrySafeMeans(x, sep, y, p);
    ExitSafeMeans(sep, y, p);
    CountConcat(sep, y, p);
    CountConcat(x, sep + y, p);
    assert x + sep + y == x + (sep + y);
  }

  /** Counting across a guarded text at the front. */
  lemma CountFront(a: string, u: string, p: string)
    requires |p| > 0 && Guarded(a, p)
    ensures Count(a + u, p) == Count(a, p) + Count(u, p)
  {
    CountAround("", a, u, p);
    assert "" + a == a;
  }

  /** Counting across a guarded text at the back. */
  lemma CountBack(u: string, a: string, p: string)
    requires |p| > 0 && Guarded(a, p)
    ensures Count(u + a, p) == Count(u, p) + Count(a, p)
  {
    CountAround(u, a, "", p);
    assert u + a + "" == u + a;
  }

  /** Counting across five texts whose second and fourth are arbitrary. */
  lemma CountFive(a: string, u: string, b: string, v: string, c: string, p: string)
    requires |p| > 0 && Guarded(a, p) && Guarded(b, p) && Guarded(c, p)
    ensures Count(a + u + b + v + c, p)
         == Count(a, p) + Count(u, p) + Count(b, p) + Count(v, p) + Count(c, p)
  {
    CountBack(a + u + b + v, c, p);
    CountAround(a + u, b, v, p);
    CountFront(a, u, p);
  }

  /** Counting across seven texts whose even-numbered ones are arbitrary. */
  lemma CountSeven(a: string, u: string, b: string, v: string, c: string, w: string, d: string, p: string)
    requires |p| > 0 && Guarded(a, p) && Guarded(b, p) && Guarded(c, p) && Guarded(d, p)
    ensures Count(a + u + b + v + c + w + d, p)
         == Count(a, p) + Count(u, p) + Count(b, p) + Count(v, p) + Count(c, p) + Count(w, p) + Count(d, p)
  {
    CountBack(a + u + b + v + c + w, d, p);
    CountAround(a + u + b + v, c, w, p);
    CountAround(a + u, b, v, p);
    CountFront(a, u, p);
  }

  /** A text without the pattern is left as it is by `replace`. */
  lemma ReplaceAbsent(s: string, q: string, r: string)
    requires |q| > 0 && Count(s, q) == 0
    ensures Replace(s, q, r) == s
  {
    SplitLength(s, q);
    SplitJoinRoundTrip(s, q);
    ReplaceIsJoinOfSplit(s, q, r);
  }

  lemma ContainsLeft(a: string, b: string, p: string)
    requires Contains(a, p)
    ensures Contains(a + b, p)
  {
    var i :| 0 <= i <= |a| - |p| && OccursAt(a, p, i);
    assert (a + b)[i..i + |p|] == a[i..i + |p|];
    assert OccursAt(a + b, p, i);
  }

  lemma ContainsRight(a: string, b: string, p: string)
    requires Contains(b, p)
    ensures Contains(a + b, p)
  {
    var i :| 0 <= i <= |b| - |p| && OccursAt(b, p, i);
    assert (a + b)[|a| + i..|a| + i + |p|] == b[i..i + |p|];
    assert OccursAt(a + b, p, |a| + i);
  }

  /** Whatever a piece contains, its join contains. */
  lemma {:induction false} ContainsInJoin(parts: seq<string>, sep: string, p: string, k: nat)
    requires k < |parts| && Contains(parts[k], p)
    ensures Contains(Join(parts, sep), p)
    decreases |parts|
  {
    if |parts| == 1 {
    } else if k == 0 {
      ContainsLeft(parts[0], sep + Join(parts[1..], sep), p);
    } else {
      ContainsInJoin(parts[1..], sep, p, k - 1);
      ContainsRight(parts[0] + sep, Join(parts[1..], sep), p);
      assert parts[0] + sep + Join(parts[1..], sep) == Join(parts, sep);
    }
  }

  /** The pieces of a split are pieces of the text, so they lack what it lacks. */
  lemma SplitPiecesAbsent(s: string, q: string, p: string)
    requires |q| > 0 && |p| > 0 && Count(s, p) == 0
    ensures forall k :: 0 <= k < |Split(s, q)| ==> Count(Split(s, q)[k], p) == 0
  {
    var parts := Split(s, q);
    SplitJoinRoundTrip(s, q);
    CountZeroIff(s, p);
    forall k | 0 <= k < |parts| ensures Count(parts[k], p) == 0 {
      CountZeroIff(parts[k], p);
      if Contains(parts[k], p) {
        ContainsInJoin(parts, q, p, k);
      }
    }
  }

  /** Replacing `q` by a text that `p` cannot touch creates no occurrence of `p`: the
      pieces between replacements come from the original text, which had none. */
  lemma ReplaceKeepsAbsent(s: string, q: string, r: string, p: string)
    requires |q| > 0 && |p| > 0 && Count(s, p) == 0 && Inert(r, p)
    ensures Count(Replace(s, q, r), p) == 0
  {
    var parts := Split(s, q);
    SplitPiecesAbsent(s, q, p);
    SumCountsZero(parts, p);
    ReplaceIsJoinOfSplit(s, q, r);
    assert EntrySafe(r, p) && ExitSafe(r, p) && Count(r, p) == 0;
    CountJoin(parts, r, p);
    assert Separators(|parts|) * Count(r, p) == 0;
  }
}
