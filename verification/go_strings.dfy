/** The part of Go's `strings` package the record store relies on.

    Strings are sequences of Unicode code points. Case mapping and white
    space follow the ASCII subset of Go's rules: `A`..`Z` map to `a`..`z`,
    and the ASCII white-space characters are trimmed.
 */
module GoStrings {

  // ---------------------------------------------------------------------
  // Case mapping
  // ---------------------------------------------------------------------

  /** The lower-case form of one character. */
  function LowerChar(c: char): char {
    if 'A' <= c <= 'Z' then (c as int + 32) as char else c
  }

  predicate IsUpper(c: char) {
    'A' <= c <= 'Z'
  }

  /** `strings.ToLower`: every character mapped to lower case, nothing else changes. */
  function ToLower(s: string): (r: string)
    ensures |r| == |s|
    ensures forall i :: 0 <= i < |s| ==> r[i] == LowerChar(s[i])
    ensures forall i :: 0 <= i < |r| ==> !IsUpper(r[i])
  {
    seq(|s|, i requires 0 <= i < |s| => LowerChar(s[i]))
  }

  /** Lower-casing twice is lower-casing once. */
  lemma ToLowerIdempotent(s: string)
    ensures ToLower(ToLower(s)) == ToLower(s)
  {
  }

  /** Lower-casing distributes over slices. */
  lemma ToLowerSlice(s: string, i: nat, j: nat)
    requires i <= j <= |s|
    ensures ToLower(s[i..j]) == ToLower(s)[i..j]
  {
  }

  /** Go's simple case folding restricted to ASCII: two characters are equal
      under folding when they are equal, or one is the upper-case form of
      the other. */
  predicate FoldEqualChar(a: char, b: char) {
    a == b
    || (IsUpper(a) && a as int + 32 == b as int)
    || (IsUpper(b) && b as int + 32 == a as int)
  }

  /** `strings.EqualFold`: same length and equal character by character under folding. */
  function EqualFold(s: string, t: string): (r: bool)
    ensures r ==> |s| == |t|
    decreases |s|
  {
    if |s| == 0 || |t| == 0 then |s| == |t|
    else FoldEqualChar(s[0], t[0]) && EqualFold(s[1..], t[1..])
  }

  /** Folded equality is equality of the lower-case forms. */
  lemma {:induction false} EqualFoldIffLowerEqual(s: string, t: string)
    ensures EqualFold(s, t) <==> ToLower(s) == ToLower(t)
    decreases |s|
  {
    if |s| == 0 || |t| == 0 {
      assert |ToLower(s)| == |s| && |ToLower(t)| == |t|;
    } else {
      EqualFoldIffLowerEqual(s[1..], t[1..]);
      assert FoldEqualChar(s[0], t[0]) <==> LowerChar(s[0]) == LowerChar(t[0]);
      ToLowerSlice(s, 1, |s|);
      ToLowerSlice(t, 1, |t|);
      var ls, lt := ToLower(s), ToLower(t);
      assert ls == [ls[0]] + ls[1..];
      assert lt == [lt[0]] + lt[1..];
    }
  }

  // ---------------------------------------------------------------------
  // White space
  // ---------------------------------------------------------------------

  /** The ASCII white-space characters: tab, line feed, vertical tab,
      form feed, carriage return and space. */
  predicate IsSpace(c: char) {
    c == '\t' || c == '\n' || c == '\U{000B}' || c == '\U{000C}' || c == '\r' || c == ' '
  }

  ghost predicate AllSpace(s: string) {
    forall k :: 0 <= k < |s| ==> IsSpace(s[k])
  }

  /** Neither the first nor the last character is white space. */
  predicate Trimmed(s: string) {
    |s| == 0 || (!IsSpace(s[0]) && !IsSpace(s[|s| - 1]))
  }

  /** `s` is `r` surrounded by white space only. */
  ghost predicate SpacePadded(r: string, s: string) {
    exists i :: 0 <= i <= |s| - |r| && s[i..i + |r|] == r && AllSpace(s[..i]) && AllSpace(s[i + |r|..])
  }

  /** Drops leading white space. */
  function TrimLeft(s: string): (r: string)
    ensures |r| <= |s| && r == s[|s| - |r|..]
    ensures AllSpace(s[..|s| - |r|])
    ensures |r| == 0 || !IsSpace(r[0])
    decreases |s|
  {
    if |s| > 0 && IsSpace(s[0]) then TrimLeft(s[1..]) else s
  }

  /** Drops trailing white space. */
  function TrimRight(s: string): (r: string)
    ensures |r| <= |s| && r == s[..|r|]
    ensures AllSpace(s[|r|..])
    ensures |r| == 0 || !IsSpace(r[|r| - 1])
    decreases |s|
  {
    if |s| > 0 && IsSpace(s[|s| - 1]) then TrimRight(s[..|s| - 1]) else s
  }

  /** `strings.TrimSpace`: the input with all leading and trailing white space removed. */
  function TrimSpace(s: string): (r: string)
    ensures Trimmed(r)
    ensures SpacePadded(r, s)
  {
    var l := TrimLeft(s);
    var r := TrimRight(l);
    var i := |s| - |l|;
    assert s[i..i + |r|] == r;
    assert s[i + |r|..] == l[|r|..];
    assert |r| > 0 ==> r[0] == l[0];
    r
  }

  /** A string without surrounding white space is its own trimming. */
  lemma TrimSpaceOfTrimmed(s: string)
    requires Trimmed(s)
    ensures TrimSpace(s) == s
  {
    if |s| > 0 {
      assert TrimLeft(s) == s;
      assert TrimRight(s) == s;
    }
  }

  /** Trimming is idempotent. */
  lemma TrimSpaceIdempotent(s: string)
    ensures TrimSpace(TrimSpace(s)) == TrimSpace(s)
  {
    TrimSpaceOfTrimmed(TrimSpace(s));
  }

  lemma {:induction false} TrimLeftAt(s: string, i: nat)
    requires i <= |s| && AllSpace(s[..i]) && (i == |s| || !IsSpace(s[i]))
    ensures TrimLeft(s) == s[i..]
    decreases i
  {
    if i > 0 {
      assert s[..i][0] == s[0];
      assert s[1..][..i - 1] == s[..i][1..];
      TrimLeftAt(s[1..], i - 1);
      assert s[1..][i - 1..] == s[i..];
    }
  }

  lemma {:induction false} TrimRightAt(s: string, e: nat)
    requires e <= |s| && AllSpace(s[e..]) && (e == 0 || !IsSpace(s[e - 1]))
    ensures TrimRight(s) == s[..e]
    decreases |s| - e
  {
    if e < |s| {
      var s' := s[..|s| - 1];
      assert s[e..][|s| - 1 - e] == s[|s| - 1];
      assert s'[e..] == s[e..][..|s| - 1 - e];
      TrimRightAt(s', e);
      assert s'[..e] == s[..e];
    }
  }

  lemma TrimNonBlankAt(r: string, s: string, i: nat)
    requires |r| > 0 && Trimmed(r)
    requires i + |r| <= |s| && s[i..i + |r|] == r && AllSpace(s[..i]) && AllSpace(s[i + |r|..])
    ensures TrimRight(TrimLeft(s)) == r
  {
    assert s[i] == r[0];
    TrimLeftAt(s, i);
    var l := s[i..];
    assert l[|r|..] == s[i + |r|..];
    assert l[|r| - 1] == r[|r| - 1];
    TrimRightAt(l, |r|);
    assert l[..|r|] == r;
  }

  lemma TrimBlankAt(s: string, i: nat)
    requires i <= |s| && AllSpace(s[..i]) && AllSpace(s[i..])
    ensures TrimLeft(s) == ""
  {
    forall k | 0 <= k < |s|
      ensures IsSpace(s[k])
    {
      if k < i {
        assert s[..i][k] == s[k];
      } else {
        assert s[i..][k - i] == s[k];
      }
    }
    assert s[..|s|] == s;
    TrimLeftAt(s, |s|);
  }

  /** `TrimSpace` is characterised by its contract: the only string without
      surrounding white space that `s` pads with white space is `TrimSpace(s)`. */
  lemma TrimSpaceUnique(r: string, s: string)
    requires Trimmed(r) && SpacePadded(r, s)
    ensures r == TrimSpace(s)
  {
    var i :| 0 <= i <= |s| - |r| && s[i..i + |r|] == r && AllSpace(s[..i]) && AllSpace(s[i + |r|..]);
    if |r| > 0 {
      TrimNonBlankAt(r, s, i);
    } else {
      TrimBlankAt(s, i);
    }
  }

  /** A string made only of white space trims to the empty string. */
  lemma TrimSpaceOfBlank(s: string)
    requires AllSpace(s)
    ensures TrimSpace(s) == ""
  {
    var r := TrimSpace(s);
    if |r| > 0 {
      assert false;
    }
  }

  // ---------------------------------------------------------------------
  // Prefixes, suffixes and substrings
  // ---------------------------------------------------------------------

  /** `strings.HasPrefix`, compared character by character from the front. */
  function HasPrefix(s: string, prefix: string): (r: bool)
    ensures r <==> prefix <= s
    decreases |prefix|
  {
    |prefix| == 0 || (|s| > 0 && s[0] == prefix[0] && HasPrefix(s[1..], prefix[1..]))
  }

  /** `suffix` is the tail end of `s`. */
  predicate IsSuffix(suffix: string, s: string) {
    |suffix| <= |s| && s[|s| - |suffix|..] == suffix
  }

  /** A non-empty suffix of a non-empty string ends with the same character,
      and what precedes that character is again a suffix. */
  lemma SuffixStep(suffix: string, s: string)
    requires |suffix| > 0 && |s| > 0
    ensures IsSuffix(suffix, s) <==>
      s[|s| - 1] == suffix[|suffix| - 1] && IsSuffix(suffix[..|suffix| - 1], s[..|s| - 1])
  {
    var n, m := |s|, |suffix|;
    if m <= n {
      var tail, tail' := s[n - m..], s[..n - 1][n - m..];
      assert tail' == tail[..m - 1];
      assert tail == tail' + [s[n - 1]];
      assert suffix == suffix[..m - 1] + [suffix[m - 1]];
    }
  }

  /** `strings.HasSuffix`, compared character by character from the back. */
  function HasSuffix(s: string, suffix: string): (r: bool)
    ensures r <==> IsSuffix(suffix, s)
    decreases |suffix|
  {
    if |suffix| == 0 then
      assert s[|s|..] == suffix;
      true
    else if |s| == 0 then
      false
    else
      SuffixStep(suffix, s);
      s[|s| - 1] == suffix[|suffix| - 1] && HasSuffix(s[..|s| - 1], suffix[..|suffix| - 1])
  }

  /** `sub` occurs in `s` starting at index `i`. */
  ghost predicate OccursAt(sub: string, s: string, i: int) {
    0 <= i <= |s| - |sub| && s[i..i + |sub|] == sub
  }

  /** `sub` occurs somewhere in `s`. */
  ghost predicate IsInfix(sub: string, s: string) {
    exists i :: OccursAt(sub, s, i)
  }

  /** `sub` occurs in `s` either at the front or somewhere in `s[1..]`. */
  lemma InfixStep(sub: string, s: string)
    ensures IsInfix(sub, s) <==> sub <= s || (|s| > 0 && IsInfix(sub, s[1..]))
  {
    if sub <= s {
      assert OccursAt(sub, s, 0);
    }
    if |s| > 0 && IsInfix(sub, s[1..]) {
      var i :| OccursAt(sub, s[1..], i);
      assert OccursAt(sub, s, i + 1);
    }
    if IsInfix(sub, s) && !(sub <= s) {
      var i :| OccursAt(sub, s, i);
      assert i != 0;
      assert s[1..][i - 1..i - 1 + |sub|] == s[i..i + |sub|];
      assert OccursAt(sub, s[1..], i - 1);
    }
  }

  /** `strings.Contains`: `sub` occurs somewhere in `s`. The empty string occurs in every string. */
  function Contains(s: string, sub: string): (r: bool)
    ensures r <==> IsInfix(sub, s)
    decreases |s|
  {
    InfixStep(sub, s);
    if HasPrefix(s, sub) then true
    else if |s| == 0 then false
    else Contains(s[1..], sub)
  }

  // ---------------------------------------------------------------------
  // Splitting on line feeds
  // ---------------------------------------------------------------------

  /** The index of the first line feed in `s`. */
  function IndexOfNewline(s: string): (i: nat)
    requires '\n' in s
    ensures i < |s| && s[i] == '\n' && '\n' !in s[..i]
  {
    if s[0] == '\n' then 0
    else
      assert '\n' in s[1..] by {
        var k :| 0 <= k < |s| && s[k] == '\n';
        assert s[1..][k - 1] == '\n';
      }
      var j := IndexOfNewline(s[1..]);
      assert s[..j + 1] == [s[0]] + s[1..][..j];
      j + 1
  }

  /** Joins `lines` with a line feed between neighbours. */
  function JoinLines(lines: seq<string>): string
    requires |lines| >= 1
  {
    if |lines| == 1 then lines[0] else lines[0] + "\n" + JoinLines(lines[1..])
  }

  /** `strings.Split(s, "\n")`: the pieces between line feeds. There is always
      at least one piece, no piece contains a line feed, and joining the
      pieces back with line feeds gives `s`. */
  function SplitLines(s: string): (lines: seq<string>)
    ensures |lines| >= 1
    ensures forall k :: 0 <= k < |lines| ==> '\n' !in lines[k]
    ensures JoinLines(lines) == s
    decreases |s|
  {
    if '\n' in s then
      var i := IndexOfNewline(s);
      var rest := SplitLines(s[i + 1..]);
      var lines := [s[..i]] + rest;
      assert lines[1..] == rest;
      assert s == s[..i] + "\n" + s[i + 1..];
      lines
    else
      [s]
  }

  /** The first piece of a split ends at the first line feed. */
  lemma SplitAtFirstNewline(first: string, rest: string)
    requires '\n' !in first
    ensures SplitLines(first + "\n" + rest) == [first] + SplitLines(rest)
  {
    var s := first + "\n" + rest;
    var n := |first|;
    assert s[n] == '\n';
    var i := IndexOfNewline(s);
    assert i == n;
    assert s[..i] == first;
    assert s[i + 1..] == rest;
  }

  /** Splitting undoes joining: the pieces are recovered exactly. */
  lemma {:induction false} SplitJoin(lines: seq<string>)
    requires |lines| >= 1
    requires forall k :: 0 <= k < |lines| ==> '\n' !in lines[k]
    ensures SplitLines(JoinLines(lines)) == lines
    decreases |lines|
  {
    if |lines| == 1 {
      assert '\n' !in JoinLines(lines);
    } else {
      SplitJoin(lines[1..]);
      SplitAtFirstNewline(lines[0], JoinLines(lines[1..]));
      assert lines == [lines[0]] + lines[1..];
    }
  }
}
