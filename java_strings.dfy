/**
  The pieces of java.lang.String and of Spring's StringUtils that the two services rely on,
  with Java's semantics: -1 for a missing index, literal replaceAll, trim of every char up to
  U+0020, split that drops trailing empty strings, and hasText over Character.isWhitespace.
*/
module JavaStrings {

  /** `s.startsWith(p)` */
  predicate StartsWith(s: string, p: string) {
    |p| <= |s| && s[..|p|] == p
  }

  /** `s.endsWith(p)` */
  predicate EndsWith(s: string, p: string) {
    |p| <= |s| && s[|s| - |p|..] == p
  }

  /** Two strings with a common suffix p agree on its last two characters. */
  lemma EndsWithTail(s: string, p: string)
    requires EndsWith(s, p) && |p| >= 2
    ensures s[|s| - 1] == p[|p| - 1] && s[|s| - 2] == p[|p| - 2]
  {
    assert s[|s| - |p|..][|p| - 1] == s[|s| - 1];
    assert s[|s| - |p|..][|p| - 2] == s[|s| - 2];
  }

  /** `s.contains(p)`: p occurs in s at some position. */
  predicate Contains(s: string, p: string)
    decreases |s|
  {
    StartsWith(s, p) || (|s| > 0 && Contains(s[1..], p))
  }

  /** `s.indexOf(c)`: the first position of c in s, or -1. */
  function IndexOf(s: string, c: char): (r: int)
    ensures -1 <= r < |s|
    ensures r == -1 <==> c !in s
    ensures 0 <= r ==> s[r] == c
    decreases |s|
  {
    if |s| == 0 then -1
    else if s[0] == c then 0
    else
      var k := IndexOf(s[1..], c);
      if k == -1 then -1 else k + 1
  }

  /** `s.lastIndexOf(c)`: the last position of c in s, or -1. */
  function LastIndexOf(s: string, c: char): (r: int)
    ensures -1 <= r < |s|
    ensures r == -1 <==> c !in s
    ensures 0 <= r ==> s[r] == c
    decreases |s|
  {
    if |s| == 0 then -1
    else if s[|s| - 1] == c then |s| - 1
    else LastIndexOf(s[..|s| - 1], c)
  }

  /**
    `s.replaceAll(p, "")` for a pattern p that holds no regular-expression metacharacter, so that
    it matches itself literally: a left-to-right scan deletes each occurrence and resumes right
    after it.
  */
  function RemoveAll(s: string, p: string): (r: string)
    requires |p| > 0
    ensures |r| <= |s|
    decreases |s|
  {
    if |s| < |p| then s
    else if s[..|p|] == p then RemoveAll(s[|p|..], p)
    else [s[0]] + RemoveAll(s[1..], p)
  }

  /** Where no match starts at the front, the first char survives. */
  lemma RemoveAllUnfold(s: string, p: string)
    requires |p| > 0 && |s| > 0 && !StartsWith(s, p)
    ensures RemoveAll(s, p) == [s[0]] + RemoveAll(s[1..], p)
  {
    if |s| < |p| {
      assert s == [s[0]] + s[1..];
    }
  }

  /** Text without an occurrence of p is left as it is. */
  lemma {:induction false} RemoveAllAbsent(s: string, p: string)
    requires |p| > 0 && !Contains(s, p)
    ensures RemoveAll(s, p) == s
    decreases |s|
  {
    if |s| >= |p| {
      RemoveAllAbsent(s[1..], p);
      assert s == [s[0]] + s[1..];
    }
  }

  /** Deleting occurrences introduces no new character. */
  lemma {:induction false} RemoveAllKeepsChars(s: string, p: string, c: char)
    requires |p| > 0 && c in RemoveAll(s, p)
    ensures c in s
    decreases |s|
  {
    if |s| >= |p| {
      if s[..|p|] == p {
        RemoveAllKeepsChars(s[|p|..], p, c);
      } else if c != s[0] {
        RemoveAllKeepsChars(s[1..], p, c);
      }
    }
  }

  /** A prefix holding no char that can start p passes through the scan untouched. */
  lemma {:induction false} RemoveAllSkipsPrefix(x: string, y: string, p: string)
    requires |p| > 0 && p[0] !in x
    ensures RemoveAll(x + y, p) == x + RemoveAll(y, p)
    decreases |x|
  {
    if |x| > 0 {
      assert (x + y)[0] == x[0];
      RemoveAllUnfold(x + y, p);
      assert (x + y)[1..] == x[1..] + y;
      RemoveAllSkipsPrefix(x[1..], y, p);
      assert x == [x[0]] + x[1..];
    } else {
      assert x + y == y;
    }
  }

  /** An occurrence at the front is deleted and the scan resumes after it. */
  lemma RemoveAllAtMatch(y: string, p: string)
    requires |p| > 0
    ensures RemoveAll(p + y, p) == RemoveAll(y, p)
  {
    assert (p + y)[..|p|] == p;
    assert (p + y)[|p|..] == y;
  }

  /**
    After `replaceAll("```", "")` no triple backtick is left: a deleted match never glues the
    backticks on either side of it into a new one, because the scan always takes the leftmost
    occurrence first.
  */
  lemma {:induction false} RemoveAllLeavesNoFence(s: string)
    ensures !Contains(RemoveAll(s, "```"), "```")
    decreases |s|
  {
    var f := "```";
    var r := RemoveAll(s, f);
    if |s| < 3 {
      ShortHasNoOccurrence(s, f);
    } else if s[..3] == f {
      RemoveAllLeavesNoFence(s[3..]);
    } else {
      var rest := RemoveAll(s[1..], f);
      RemoveAllLeavesNoFence(s[1..]);
      assert r == [s[0]] + rest;
      assert r[1..] == rest;
      if s[0] == '`' {
        if s[1] != '`' {
          assert !StartsWith(s[1..], f);
          RemoveAllUnfold(s[1..], f);
          assert rest[0] == s[1];
        } else {
          assert s[2] != '`';
          assert !StartsWith(s[1..], f);
          RemoveAllUnfold(s[1..], f);
          assert s[1..][1..] == s[2..];
          assert !StartsWith(s[2..], f);
          RemoveAllUnfold(s[2..], f);
          assert rest[1] == s[2];
        }
      }
      assert !StartsWith(r, f);
    }
  }

  /** A text shorter than p cannot contain it. */
  lemma {:induction false} ShortHasNoOccurrence(s: string, p: string)
    requires |s| < |p|
    ensures !Contains(s, p)
    decreases |s|
  {
    if |s| > 0 {
      ShortHasNoOccurrence(s[1..], p);
    }
  }

  /** An occurrence inside a slice is an occurrence in the whole text. */
  lemma {:induction false} ContainsFromSuffix(s: string, i: nat, p: string)
    requires i <= |s| && Contains(s[i..], p)
    ensures Contains(s, p)
    decreases i
  {
    if i > 0 {
      assert s[1..][i - 1..] == s[i..];
      ContainsFromSuffix(s[1..], i - 1, p);
    }
  }

  lemma {:induction false} ContainsFromPrefix(s: string, j: nat, p: string)
    requires j <= |s| && Contains(s[..j], p)
    ensures Contains(s, p)
    decreases |s|
  {
    if StartsWith(s[..j], p) {
      assert s[..|p|] == s[..j][..|p|];
    } else {
      assert |s[..j]| > 0 && Contains(s[..j][1..], p);
      assert s[..j][1..] == s[1..][..j - 1];
      ContainsFromPrefix(s[1..], j - 1, p);
    }
  }

  lemma ContainsFromSlice(s: string, i: nat, j: nat, p: string)
    requires i <= j <= |s| && Contains(s[i..j], p)
    ensures Contains(s, p)
  {
    assert s[i..j] == s[..j][i..];
    ContainsFromSuffix(s[..j], i, p);
    ContainsFromPrefix(s, j, p);
  }

  /** A pattern absent from a text is absent from each of its slices. */
  lemma SliceKeepsAbsent(s: string, i: nat, j: nat, p: string)
    requires i <= j <= |s|
    ensures !Contains(s, p) ==> !Contains(s[i..j], p)
  {
    if Contains(s[i..j], p) {
      ContainsFromSlice(s, i, j, p);
    }
  }

  /** Whoever contains a text contains each of its prefixes. */
  lemma {:induction false} ContainsPrefixOfPattern(s: string, q: string, p: string)
    requires Contains(s, q) && StartsWith(q, p)
    ensures Contains(s, p)
    decreases |s|
  {
    if StartsWith(s, q) {
      assert s[..|p|] == s[..|q|][..|p|];
    } else {
      ContainsPrefixOfPattern(s[1..], q, p);
    }
  }

  /** A position holding c with no c before it is what `indexOf` returns. */
  lemma IndexOfAt(s: string, c: char, p: int)
    requires 0 <= p < |s| && s[p] == c && c !in s[..p]
    ensures IndexOf(s, c) == p
  {
    var r := IndexOf(s, c);
    assert s[p] in s;
    BeforeIndexOf(s, c);
    forall i | 0 <= i < p ensures s[i] != c {
      assert s[..p][i] == s[i];
    }
    if r >= 0 {
      forall i | 0 <= i < r ensures s[i] != c {
        assert s[..r][i] == s[i];
      }
    }
  }

  /** Nothing before the first occurrence is `c`. */
  lemma {:induction false} BeforeIndexOf(s: string, c: char)
    ensures IndexOf(s, c) >= 0 ==> c !in s[..IndexOf(s, c)]
    decreases |s|
  {
    if |s| > 0 && s[0] != c {
      var k := IndexOf(s[1..], c);
      BeforeIndexOf(s[1..], c);
      if k >= 0 {
        assert IndexOf(s, c) == k + 1;
        assert s[..k + 1] == [s[0]] + s[1..][..k];
        assert c !in [s[0]];
      }
    }
  }

  /** Nothing after the last occurrence is `c`. */
  lemma {:induction false} AfterLastIndexOf(s: string, c: char)
    ensures c !in s[LastIndexOf(s, c) + 1..]
    decreases |s|
  {
    if |s| > 0 && s[|s| - 1] != c {
      var init := s[..|s| - 1];
      var k := LastIndexOf(init, c);
      assert LastIndexOf(s, c) == k;
      AfterLastIndexOf(init, c);
      var after := s[k + 1..];
      forall i | 0 <= i < |after| ensures after[i] != c {
        if k + 1 + i < |s| - 1 {
          assert after[i] == init[k + 1..][i];
        }
      }
    }
  }

  /** A position holding c with no c after it is what `lastIndexOf` returns. */
  lemma LastIndexOfAt(s: string, c: char, p: int)
    requires 0 <= p < |s| && s[p] == c && c !in s[p + 1..]
    ensures LastIndexOf(s, c) == p
  {
  }

  /** An occurrence at a known position. */
  lemma ContainsAt(s: string, k: nat, p: string)
    requires k + |p| <= |s| && s[k..k + |p|] == p
    ensures Contains(s, p)
  {
    assert s[k..][..|p|] == p;
    assert StartsWith(s[k..], p);
    ContainsFromSuffix(s, k, p);
  }

  /** `Character.isWhitespace(c)`: the Java whitespace code points (no-break spaces excluded). */
  predicate IsWhitespace(c: char) {
    var n := c as int;
    (0x09 <= n <= 0x0D) || (0x1C <= n <= 0x20) || n == 0x1680
    || (0x2000 <= n <= 0x2006) || (0x2008 <= n <= 0x200A)
    || n == 0x2028 || n == 0x2029 || n == 0x205F || n == 0x3000
  }

  /** Spring's `StringUtils.hasText(s)` on a non-null string: some char is not whitespace. */
  predicate HasText(s: string) {
    exists i :: 0 <= i < |s| && !IsWhitespace(s[i])
  }

  /** The chars `String.trim()` removes: every code point up to U+0020. */
  predicate IsTrimmed(c: char) {
    c <= ' '
  }

  function TrimStart(s: string): (r: string)
    ensures |r| <= |s| && r == s[|s| - |r|..]
    ensures forall k :: 0 <= k < |s| - |r| ==> IsTrimmed(s[k])
    ensures |r| > 0 ==> !IsTrimmed(r[0])
    decreases |s|
  {
    if |s| > 0 && IsTrimmed(s[0]) then TrimStart(s[1..]) else s
  }

  function TrimEnd(s: string): (r: string)
    ensures |r| <= |s| && r == s[..|r|]
    ensures forall k :: |r| <= k < |s| ==> IsTrimmed(s[k])
    ensures |r| > 0 ==> !IsTrimmed(r[|r| - 1])
    decreases |s|
  {
    if |s| > 0 && IsTrimmed(s[|s| - 1]) then TrimEnd(s[..|s| - 1]) else s
  }

  /** r is the slice of s that starts at a. */
  predicate SliceAt(s: string, r: string, a: int) {
    0 <= a && a + |r| <= |s| && r == s[a..a + |r|]
  }

  /**
    A prefix r of the suffix of s that starts at a is the slice of s at a; when only trimmed
    chars precede the suffix and follow r in it, only trimmed chars surround the slice.
  */
  lemma TrimmedAround(s: string, front: string, r: string, a: int)
    requires 0 <= a <= |s| && front == s[a..] && |r| <= |front| && r == front[..|r|]
    requires forall k :: 0 <= k < a ==> IsTrimmed(s[k])
    requires forall k :: |r| <= k < |front| ==> IsTrimmed(front[k])
    ensures SliceAt(s, r, a)
    ensures forall k :: 0 <= k < a ==> IsTrimmed(s[k])
    ensures forall k :: a + |r| <= k < |s| ==> IsTrimmed(s[k])
  {
    forall k | a + |r| <= k < |s|
      ensures IsTrimmed(s[k])
    {
      assert s[k] == front[k - a];
    }
  }

  /**
    `s.trim()`: the slice of s left after removing leading and trailing chars up to U+0020.
    Every char outside the slice is such a char and the slice neither starts nor ends with one,
    which pins the result down (an all-blank text trims to "").
  */
  function Trim(s: string): (r: string)
    ensures exists a :: && SliceAt(s, r, a)
                        && (forall k :: 0 <= k < a ==> IsTrimmed(s[k]))
                        && (forall k :: a + |r| <= k < |s| ==> IsTrimmed(s[k]))
    ensures |r| > 0 ==> !IsTrimmed(r[0]) && !IsTrimmed(r[|r| - 1])
  {
    var front := TrimStart(s);
    var r := TrimEnd(front);
    TrimmedAround(s, front, r, |s| - |front|);
    r
  }

  /** Trimming twice is trimming once. */
  lemma TrimIdempotent(s: string)
    ensures Trim(Trim(s)) == Trim(s)
  {
  }

  /** Trimming adds no occurrence of a pattern. */
  lemma TrimKeepsAbsent(s: string, p: string)
    ensures !Contains(s, p) ==> !Contains(Trim(s), p)
  {
    var a :| SliceAt(s, Trim(s), a);
    assert s[a..a + |Trim(s)|] == Trim(s);
    SliceKeepsAbsent(s, a, a + |Trim(s)|, p);
  }

  /**
    `s.split(String.valueOf(sep))` before the trailing empty strings are dropped: the text
    between consecutive separators, one more piece than there are separators. Built from the
    end: the pieces before the last separator, then the text after it.
  */
  function SplitPieces(s: string, sep: char): (r: seq<string>)
    ensures |r| >= 1
    decreases |s|
  {
    var k := LastIndexOf(s, sep);
    if k < 0 then [s] else SplitPieces(s[..k], sep) + [s[k + 1..]]
  }

  /** `split` with limit 0 removes every empty string at the end of the list. */
  function DropTrailingEmpty(parts: seq<string>): (r: seq<string>)
    ensures |r| <= |parts| && r == parts[..|r|]
    ensures |r| > 0 ==> r[|r| - 1] != ""
    ensures forall k :: |r| <= k < |parts| ==> parts[k] == ""
  {
    if |parts| > 0 && parts[|parts| - 1] == "" then DropTrailingEmpty(parts[..|parts| - 1]) else parts
  }

  /**
    `s.split(String.valueOf(sep))`: a text without the separator comes back as the only element;
    otherwise the pieces, without the empty strings at the end.
  */
  function Split(s: string, sep: char): seq<string> {
    if sep !in s then [s] else DropTrailingEmpty(SplitPieces(s, sep))
  }

  /** The last piece of a split is the text after the last separator. */
  lemma SplitPiecesLast(s: string, sep: char)
    ensures SplitPieces(s, sep)[|SplitPieces(s, sep)| - 1] == s[LastIndexOf(s, sep) + 1..]
  {
    if LastIndexOf(s, sep) < 0 {
      assert s[0..] == s;
    }
  }

  /** No string of the list holds `c`. */
  predicate NoneHolds(parts: seq<string>, c: char) {
    forall m :: 0 <= m < |parts| ==> c !in parts[m]
  }

  lemma NoneHoldsSnoc(parts: seq<string>, x: string, c: char)
    requires NoneHolds(parts, c) && c !in x
    ensures NoneHolds(parts + [x], c)
  {
    var all := parts + [x];
    forall m | 0 <= m < |all| ensures c !in all[m] {
      if m < |parts| {
        assert all[m] == parts[m];
      }
    }
  }

  /** No piece holds the separator. */
  lemma {:induction false} SplitPiecesNoSeparator(s: string, sep: char)
    ensures NoneHolds(SplitPieces(s, sep), sep)
    decreases |s|
  {
    var k := LastIndexOf(s, sep);
    if k >= 0 {
      SplitPiecesNoSeparator(s[..k], sep);
      AfterLastIndexOf(s, sep);
      NoneHoldsSnoc(SplitPieces(s[..k], sep), s[k + 1..], sep);
    } else {
      assert SplitPieces(s, sep) == [s];
      assert [s][0] == s;
    }
  }

  predicate AllEmpty(parts: seq<string>) {
    forall m :: 0 <= m < |parts| ==> parts[m] == ""
  }

  predicate AllChar(s: string, c: char) {
    forall i :: 0 <= i < |s| ==> s[i] == c
  }

  lemma AllEmptySnoc(parts: seq<string>, x: string)
    ensures AllEmpty(parts + [x]) <==> AllEmpty(parts) && x == ""
  {
    var all := parts + [x];
    assert all[|parts|] == x;
    if AllEmpty(all) {
      forall m | 0 <= m < |parts| ensures parts[m] == "" {
        assert parts[m] == all[m];
      }
    }
  }

  /** Up to the last `c`, the text is all `c` exactly when it all is and nothing follows that `c`. */
  lemma AllCharBeforeLast(s: string, c: char, k: nat)
    requires k < |s| && s[k] == c && c !in s[k + 1..]
    ensures AllChar(s, c) <==> AllChar(s[..k], c) && k == |s| - 1
  {
    if k < |s| - 1 {
      assert s[k + 1..][0] == s[k + 1];
    }
    if AllChar(s, c) {
      forall i | 0 <= i < k ensures s[..k][i] == c {
        assert s[..k][i] == s[i];
      }
    }
    if AllChar(s[..k], c) && k == |s| - 1 {
      forall i | 0 <= i < |s| ensures s[i] == c {
        if i < k {
          assert s[i] == s[..k][i];
        }
      }
    }
  }

  /** Every piece is empty exactly when every char is the separator. */
  lemma {:induction false} SplitPiecesAllEmpty(s: string, sep: char)
    ensures AllEmpty(SplitPieces(s, sep)) <==> AllChar(s, sep)
    decreases |s|
  {
    var k := LastIndexOf(s, sep);
    if k < 0 {
      assert SplitPieces(s, sep) == [s];
      assert [s][0] == s;
      if |s| > 0 {
        assert s[0] != sep;
      }
    } else {
      var before := SplitPieces(s[..k], sep);
      SplitPiecesAllEmpty(s[..k], sep);
      assert SplitPieces(s, sep) == before + [s[k + 1..]];
      AllEmptySnoc(before, s[k + 1..]);
      AfterLastIndexOf(s, sep);
      AllCharBeforeLast(s, sep, k);
    }
  }

  /** Dropping the trailing empty strings leaves nothing exactly when every string was empty. */
  lemma DropTrailingEmptyNil(parts: seq<string>)
    ensures |DropTrailingEmpty(parts)| == 0 <==> AllEmpty(parts)
  {
    var r := DropTrailingEmpty(parts);
    if |r| > 0 {
      assert parts[|r| - 1] == r[|r| - 1];
    }
  }

  /** A text holding the separator splits into nothing exactly when it is all separators. */
  lemma SplitEmptyIffAllSeparators(s: string, sep: char)
    requires sep in s
    ensures |Split(s, sep)| == 0 <==> AllChar(s, sep)
  {
    DropTrailingEmptyNil(SplitPieces(s, sep));
    SplitPiecesAllEmpty(s, sep);
  }

  /** The last element of a split holds no separator and is not empty. */
  lemma SplitLastElement(s: string, sep: char)
    requires sep in s && |Split(s, sep)| > 0
    ensures var parts := Split(s, sep); sep !in parts[|parts| - 1] && parts[|parts| - 1] != ""
  {
    var pieces := SplitPieces(s, sep);
    var parts := DropTrailingEmpty(pieces);
    SplitPiecesNoSeparator(s, sep);
    assert parts[|parts| - 1] == pieces[|parts| - 1];
    assert sep !in pieces[|parts| - 1];
  }

  /** A text that does not end in the separator keeps its last piece: the text after the last separator. */
  lemma SplitLastAfterSeparator(s: string, sep: char)
    requires sep in s && s[|s| - 1] != sep
    ensures var parts := Split(s, sep); |parts| > 0 && parts[|parts| - 1] == s[LastIndexOf(s, sep) + 1..]
  {
    var pieces := SplitPieces(s, sep);
    SplitPiecesLast(s, sep);
    var k := LastIndexOf(s, sep);
    assert 0 <= k < |s| - 1;
    assert |s[k + 1..]| > 0;
    assert pieces[|pieces| - 1] != "";
    assert DropTrailingEmpty(pieces) == pieces;
  }
}
