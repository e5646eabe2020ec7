/**
 * The Python `str` operations the scripts rely on, over `string` (a
 * `seq<char>`): substring test (`pat in s`), `split(sep)`, `sep.join(parts)`,
 * `replace(old, new)` and `strip(chars)`.
 */
module Strings {
  import opened Wrappers

  /** `pat` occurs in `s` starting at position `i`. */
  predicate OccursAt(s: string, pat: string, i: nat)
  {
    i + |pat| <= |s| && s[i..i + |pat|] == pat
  }

  /** Python's `pat in s`. */
  predicate Contains(s: string, pat: string)
  {
    exists i: nat | i <= |s| :: OccursAt(s, pat, i)
  }

  lemma OccursAtTail(s: string, pat: string)
    requires |s| > 0
    ensures forall j: nat :: 1 <= j ==> (OccursAt(s, pat, j) <==> OccursAt(s[1..], pat, j - 1))
  {
    forall j: nat | 1 <= j
      ensures OccursAt(s, pat, j) <==> OccursAt(s[1..], pat, j - 1)
    {
      if j + |pat| <= |s| {
        assert s[1..][j - 1..j - 1 + |pat|] == s[j..j + |pat|];
      }
    }
  }

  /** A single-character pattern occurs exactly when the character does. */
  lemma ContainsChar(s: string, c: char)
    ensures Contains(s, [c]) <==> c in s
  {
    if c in s {
      var i :| 0 <= i < |s| && s[i] == c;
      assert s[i..i + 1] == [c];
      assert OccursAt(s, [c], i);
    }
    if Contains(s, [c]) {
      var i: nat :| i <= |s| && OccursAt(s, [c], i);
      assert s[i] == s[i..i + 1][0];
    }
  }

  /** The leftmost occurrence of `pat` in `s`, as Python's `s.find(pat)` (None for -1). */
  function FindFirst(s: string, pat: string): (r: Option<nat>)
    ensures r.Some? ==> OccursAt(s, pat, r.value)
    ensures r.Some? ==> forall j: nat :: j < r.value ==> !OccursAt(s, pat, j)
    ensures r.None? <==> !Contains(s, pat)
    decreases |s|
  {
    if |s| < |pat| then
      None
    else if s[..|pat|] == pat then
      Some(0)
    else
      OccursAtTail(s, pat);
      match FindFirst(s[1..], pat)
      case None => None
      case Some(i) => Some(i + 1)
  }

  /**
   * Python's `s.split(sep)` for a non-empty separator: the pieces between the
   * leftmost non-overlapping occurrences of `sep`. It never yields an empty
   * list.
   */
  function Split(s: string, sep: string): (parts: seq<string>)
    requires |sep| > 0
    ensures |parts| >= 1
    decreases |s|
  {
    match FindFirst(s, sep)
    case None => [s]
    case Some(i) => [s[..i]] + Split(s[i + |sep|..], sep)
  }

  /** No piece of a split contains the separator. */
  lemma {:induction false} SplitPiecesFree(s: string, sep: string)
    requires |sep| > 0
    ensures forall k :: 0 <= k < |Split(s, sep)| ==> !Contains(Split(s, sep)[k], sep)
    decreases |s|
  {
    match FindFirst(s, sep)
    case None =>
    case Some(i) =>
      NoEarlierOccurrence(s, sep, i);
      SplitPiecesFree(s[i + |sep|..], sep);
  }

  /** The prefix before the leftmost occurrence holds no occurrence. */
  lemma NoEarlierOccurrence(s: string, pat: string, i: nat)
    requires |pat| > 0 && i <= |s|
    requires forall j: nat :: j < i ==> !OccursAt(s, pat, j)
    ensures !Contains(s[..i], pat)
  {
    forall j: nat | j <= i && OccursAt(s[..i], pat, j)
      ensures false
    {
      assert s[..i][j..j + |pat|] == s[j..j + |pat|];
      assert OccursAt(s, pat, j);
    }
  }

  /** Splitting on a single character that the first piece lacks peels that piece off. */
  lemma SplitCons(a: string, c: char, b: string)
    requires c !in a
    ensures Split(a + [c] + b, [c]) == [a] + Split(b, [c])
  {
    var s := a + [c] + b;
    assert s[|a|..|a| + 1] == [c];
    assert OccursAt(s, [c], |a|);
    forall j: nat | j < |a|
      ensures !OccursAt(s, [c], j)
    {
      assert s[j..j + 1] == [a[j]];
    }
    assert FindFirst(s, [c]) == Some(|a|);
    assert s[..|a|] == a && s[|a| + 1..] == b;
  }

  /** Python's `sep.join(parts)`. */
  function Join(parts: seq<string>, sep: string): string
  {
    if |parts| == 0 then ""
    else if |parts| == 1 then parts[0]
    else parts[0] + sep + Join(parts[1..], sep)
  }

  /** Two or more pieces join as the first, the separator and the join of the rest. */
  lemma JoinHead(parts: seq<string>, sep: string)
    requires |parts| >= 2
    ensures Join(parts, sep) == parts[0] + sep + Join(parts[1..], sep)
  {
  }

  /** Four or more pieces join as the first three and the join of the rest. */
  lemma JoinFirstThree(parts: seq<string>, sep: string)
    requires |parts| >= 4
    ensures Join(parts, sep) == Join([parts[0], parts[1], parts[2], Join(parts[3..], sep)], sep)
  {
    var rest := Join(parts[3..], sep);
    var four := [parts[0], parts[1], parts[2], rest];
    JoinHead(parts, sep);
    JoinHead(parts[1..], sep);
    JoinHead(parts[2..], sep);
    assert parts[1..][1..] == parts[2..];
    assert parts[2..][1..] == parts[3..];
    JoinHead(four, sep);
    JoinHead(four[1..], sep);
    JoinHead(four[2..], sep);
    assert four[1..][1..] == four[2..];
    assert four[2..][1..] == [rest];
  }

  /** Splitting on a character peels off the first three pieces that lack it. */
  lemma SplitPeelThree(a: string, b: string, d: string, rest: string, c: char)
    requires c !in a && c !in b && c !in d
    ensures |Split(a + [c] + (b + [c] + (d + [c] + rest)), [c])| >= 3
    ensures Split(a + [c] + (b + [c] + (d + [c] + rest)), [c])[2] == d
    ensures Split(a + [c] + (b + [c] + (d + [c] + rest)), [c])[3..] == Split(rest, [c])
  {
    var s3 := d + [c] + rest;
    var s2 := b + [c] + s3;
    var s1 := a + [c] + s2;
    SplitCons(a, c, s2);
    SplitCons(b, c, s3);
    SplitCons(d, c, rest);
    var p1 := Split(s1, [c]);
    assert p1[1..] == Split(s2, [c]);
    assert p1[1..][1..] == Split(s3, [c]);
    assert p1[2] == p1[1..][1..][0];
    assert p1[3..] == p1[1..][1..][1..];
  }

  /** Joining the pieces of a split with the same separator gives back the string. */
  lemma {:induction false} JoinSplit(s: string, sep: string)
    requires |sep| > 0
    ensures Join(Split(s, sep), sep) == s
    decreases |s|
  {
    var parts := Split(s, sep);
    var found := FindFirst(s, sep);
    if found.Some? {
      var i := found.value;
      var rest := s[i + |sep|..];
      assert parts == [s[..i]] + Split(rest, sep);
      assert parts[1..] == Split(rest, sep);
      JoinSplit(rest, sep);
      calc {
        Join(parts, sep);
        parts[0] + sep + Join(parts[1..], sep);
        s[..i] + sep + rest;
        { assert s[i..i + |sep|] == sep; }
        s;
      }
    }
  }

  /**
   * A character that does not occur in `s` occurs in no piece of its split:
   * every piece is a slice of `s`.
   */
  lemma {:induction false} SplitKeepsChars(s: string, sep: string, c: char)
    requires |sep| > 0
    requires c !in s
    ensures forall k :: 0 <= k < |Split(s, sep)| ==> c !in Split(s, sep)[k]
    decreases |s|
  {
    match FindFirst(s, sep)
    case None =>
    case Some(i) =>
      var rest := s[i + |sep|..];
      AbsentFromSlice(s, c, 0, i);
      AbsentFromSlice(s, c, i + |sep|, |s|);
      assert s[i + |sep|..|s|] == rest;
      SplitKeepsChars(rest, sep, c);
      var parts := Split(s, sep);
      assert parts == [s[..i]] + Split(rest, sep);
      forall k | 0 <= k < |parts| ensures c !in parts[k] {
        if k > 0 { assert parts[k] == Split(rest, sep)[k - 1]; }
      }
  }

  /** A character absent from a string is absent from each of its slices. */
  lemma AbsentFromSlice(s: string, c: char, a: nat, b: nat)
    requires a <= b <= |s| && c !in s
    ensures c !in s[a..b]
  {
    forall j | 0 <= j < b - a ensures s[a..b][j] != c {
      assert s[a..b][j] == s[a + j];
    }
  }

  /**
   * Python's `s.replace(pat, with)` for a non-empty `pat`: scanning left to
   * right, every occurrence of `pat` that does not overlap an earlier
   * replaced one is replaced by `with`.
   */
  function Replace(s: string, pat: string, with: string): string
    requires |pat| > 0
    decreases |s|
  {
    match FindFirst(s, pat)
    case None => s
    case Some(i) => s[..i] + with + Replace(s[i + |pat|..], pat, with)
  }

  /** `s.replace(pat, with)` is `with.join(s.split(pat))`: every separator the split removes is replaced. */
  lemma {:induction false} ReplaceJoinSplit(s: string, pat: string, with: string)
    requires |pat| > 0
    ensures Replace(s, pat, with) == Join(Split(s, pat), with)
    decreases |s|
  {
    match FindFirst(s, pat)
    case None =>
    case Some(i) =>
      var rest := s[i + |pat|..];
      ReplaceJoinSplit(rest, pat, with);
      var parts := Split(s, pat);
      assert parts == [s[..i]] + Split(rest, pat);
      JoinHead(parts, with);
      assert parts[1..] == Split(rest, pat);
  }

  /** A string without the pattern is left as it is. */
  lemma ReplaceAbsent(s: string, pat: string, with: string)
    requires |pat| > 0
    requires !Contains(s, pat)
    ensures Replace(s, pat, with) == s
  {
  }

  /** Deleting a character (`s.replace(c, "")`) leaves no copy of it and keeps every other character. */
  lemma {:induction false} DeleteChar(s: string, c: char)
    ensures c !in Replace(s, [c], "")
    ensures forall d :: d != c ==> (d in Replace(s, [c], "") <==> d in s)
    decreases |s|
  {
    match FindFirst(s, [c])
    case None =>
      ContainsChar(s, c);
    case Some(i) =>
      var rest := s[i + 1..];
      DeleteChar(rest, c);
      NoEarlierOccurrence(s, [c], i);
      ContainsChar(s[..i], c);
      assert s[i..i + 1] == [c];
      assert s == s[..i] + [c] + rest;
      assert Replace(s, [c], "") == s[..i] + "" + Replace(rest, [c], "");
      DeleteOne(s[..i], c, rest, Replace(rest, [c], ""));
  }

  /** Deleting one copy of `c` between a part without it and a rest cleaned of it leaves no copy and every other character. */
  lemma DeleteOne(a: string, c: char, rest: string, r: string)
    requires c !in a && c !in r
    requires forall d :: d != c ==> (d in r <==> d in rest)
    ensures c !in a + "" + r
    ensures forall d :: d != c ==> (d in a + "" + r <==> d in a + [c] + rest)
  {
  }

  /** Python's `s.lstrip(chars)`. */
  function StripLeft(s: string, chars: set<char>): (r: string)
    ensures |r| <= |s| && r == s[|s| - |r|..]
    ensures forall k :: 0 <= k < |s| - |r| ==> s[k] in chars
    ensures r == [] || r[0] !in chars
  {
    if |s| > 0 && s[0] in chars then StripLeft(s[1..], chars) else s
  }

  /** Python's `s.rstrip(chars)`. */
  function StripRight(s: string, chars: set<char>): (r: string)
    ensures |r| <= |s| && r == s[..|r|]
    ensures forall k :: |r| <= k < |s| ==> s[k] in chars
    ensures r == [] || r[|r| - 1] !in chars
  {
    if |s| > 0 && s[|s| - 1] in chars then StripRight(s[..|s| - 1], chars) else s
  }

  /**
   * Python's `s.strip(chars)`: the slice of `s` left once every leading and
   * every trailing character in `chars` is removed.
   */
  function Strip(s: string, chars: set<char>): (r: string)
    ensures exists i, j ::
              && 0 <= i <= j <= |s| && r == s[i..j]
              && (forall k :: 0 <= k < i ==> s[k] in chars)
              && (forall k :: j <= k < |s| ==> s[k] in chars)
    ensures r == [] || (r[0] !in chars && r[|r| - 1] !in chars)
  {
    var left := StripLeft(s, chars);
    var r := StripRight(left, chars);
    var i := |s| - |left|;
    assert r == s[i..i + |r|];
    r
  }
}
