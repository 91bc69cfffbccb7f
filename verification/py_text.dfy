/**
 * The three Python string methods the authentication check uses:
 * `startswith`, `replace(pattern, "")` and `strip()`.
 */
module PyText {

  /** `c.isspace()`: the characters Python's `str.strip()` removes by default. */
  predicate IsSpace(c: char)
  {
    var n := c as int;
    (0x09 <= n <= 0x0D) || (0x1C <= n <= 0x20) || n == 0x85 || n == 0xA0 || n == 0x1680 ||
    (0x2000 <= n <= 0x200A) || n == 0x2028 || n == 0x2029 || n == 0x202F || n == 0x205F || n == 0x3000
  }

  /**
   * Python's whitespace within Latin-1: in ASCII, space, tab, line feed,
   * vertical tab, form feed, carriage return and the four information
   * separators; above ASCII, only the next-line control and the no-break
   * space.
   */
  lemma IsSpaceLatin1(c: char)
    ensures c < '\U{80}' ==> (IsSpace(c) <==> c == ' ' || '\t' <= c <= '\r' || '\U{1C}' <= c <= '\U{1F}')
    ensures '\U{80}' <= c <= '\U{FF}' ==> (IsSpace(c) <==> c == '\U{85}' || c == '\U{A0}')
  {
  }

  predicate NoSpace(s: string)
  {
    forall k :: 0 <= k < |s| ==> !IsSpace(s[k])
  }

  /** `s.startswith(prefix)`: an exact, case-sensitive prefix match. */
  predicate StartsWith(s: string, prefix: string): (b: bool)
    ensures b <==> |prefix| <= |s| && forall k :: 0 <= k < |prefix| ==> s[k] == prefix[k]
  {
    |prefix| <= |s| && s[..|prefix|] == prefix
  }

  /** `pattern` occurs in `s` starting at index `i`. */
  predicate OccursAt(s: string, pattern: string, i: nat)
  {
    i + |pattern| <= |s| && s[i..i + |pattern|] == pattern
  }

  /** `pattern` occurs somewhere in `s`. */
  predicate Occurs(s: string, pattern: string)
  {
    exists i: nat :: i <= |s| && OccursAt(s, pattern, i)
  }

  /**
   * `s.replace(pattern, "")`: every non-overlapping occurrence of a
   * non-empty `pattern`, scanning left to right, is deleted; an empty
   * pattern leaves `s` as it is. No character is introduced.
   */
  function RemoveAll(s: string, pattern: string): (r: string)
    ensures |r| <= |s|
    ensures forall c :: c in r ==> c in s
    decreases |s|
  {
    if |pattern| == 0 || |s| < |pattern| then s
    else if s[..|pattern|] == pattern then
      RemoveAll(s[|pattern|..], pattern)
    else [s[0]] + RemoveAll(s[1..], pattern)
  }

  /** Text without the pattern is left unchanged. */
  lemma {:induction false} RemoveAllWithoutOccurrence(s: string, pattern: string)
    requires !Occurs(s, pattern)
    ensures RemoveAll(s, pattern) == s
    decreases |s|
  {
    if |pattern| == 0 || |s| < |pattern| {
    } else {
      assert !OccursAt(s, pattern, 0);
      if Occurs(s[1..], pattern) {
        var i: nat :| i <= |s[1..]| && OccursAt(s[1..], pattern, i);
        assert s[i + 1..i + 1 + |pattern|] == s[1..][i..i + |pattern|];
        assert OccursAt(s, pattern, i + 1);
        assert false;
      }
      RemoveAllWithoutOccurrence(s[1..], pattern);
      assert s == [s[0]] + s[1..];
    }
  }

  /** Every character of `s` from index `lo` up to `hi` is whitespace. */
  predicate SpaceBetween(s: string, lo: int, hi: int)
    requires 0 <= lo <= hi <= |s|
  {
    forall k :: lo <= k < hi ==> IsSpace(s[k])
  }

  /** The number of whitespace characters `s` starts with. */
  function LeadingSpace(s: string): (n: nat)
    ensures n <= |s| && SpaceBetween(s, 0, n)
    ensures n < |s| ==> !IsSpace(s[n])
    decreases |s|
  {
    if |s| > 0 && IsSpace(s[0]) then 1 + LeadingSpace(s[1..]) else 0
  }

  /** The number of whitespace characters `s` ends with. */
  function TrailingSpace(s: string): (n: nat)
    ensures n <= |s| && SpaceBetween(s, |s| - n, |s|)
    ensures n < |s| ==> !IsSpace(s[|s| - n - 1])
    decreases |s|
  {
    if |s| > 0 && IsSpace(s[|s| - 1]) then 1 + TrailingSpace(s[..|s| - 1]) else 0
  }

  /**
   * `s.strip()`: `s` with its leading and trailing whitespace cut off. The
   * result neither starts nor ends with whitespace.
   */
  function Strip(s: string): (r: string)
    ensures r == [] || (!IsSpace(r[0]) && !IsSpace(r[|r| - 1]))
  {
    var front := s[LeadingSpace(s)..];
    front[..|front| - TrailingSpace(front)]
  }

  /** The stripped text is the stretch of `s` after its leading whitespace. */
  lemma StripIsSlice(s: string)
    ensures var r := Strip(s);
            var i := LeadingSpace(s);
            i + |r| <= |s| && r == s[i..i + |r|]
  {
    var i := LeadingSpace(s);
    var front := s[i..];
    SliceOfSlice(s, i, |front| - TrailingSpace(front));
  }

  /** Cutting a prefix and then a suffix is taking one slice. */
  lemma SliceOfSlice(s: string, i: nat, m: nat)
    requires i + m <= |s|
    ensures s[i..][..m] == s[i..i + m]
  {
  }

  /**
   * Stripping cuts only whitespace, and only from the two ends: the result
   * is the stretch of `s` between a whitespace prefix and a whitespace
   * suffix.
   */
  lemma StripCutsOnlyEnds(s: string)
    ensures var r := Strip(s);
            var i := LeadingSpace(s);
            && i + |r| <= |s| && r == s[i..i + |r|]
            && SpaceBetween(s, 0, i) && SpaceBetween(s, i + |r|, |s|)
  {
    StripIsSlice(s);
    var i := LeadingSpace(s);
    var front := s[i..];
    var m := |front| - TrailingSpace(front);
    assert |Strip(s)| == m;
    assert SpaceBetween(front, m, |front|);
    forall k | i + m <= k < |s|
      ensures IsSpace(s[k])
    {
      assert s[k] == front[k - i];
    }
  }

  /** A whitespace character in front makes no difference to stripping. */
  lemma StripAfterSpace(c: char, s: string)
    requires IsSpace(c)
    ensures Strip([c] + s) == Strip(s)
  {
    var cs := [c] + s;
    assert cs[1..] == s;
    var n := LeadingSpace(s);
    assert LeadingSpace(cs) == 1 + n;
    assert cs[1 + n..] == s[n..];
  }

  /** Text without surrounding whitespace is left as it is. */
  lemma StripUntrimmed(s: string)
    requires s == [] || (!IsSpace(s[0]) && !IsSpace(s[|s| - 1]))
    ensures Strip(s) == s
  {
  }

  /** Stripping twice is stripping once. */
  lemma StripIdempotent(s: string)
    ensures Strip(Strip(s)) == Strip(s)
  {
    StripUntrimmed(Strip(s));
  }

  /** Where `pattern` starts, `RemoveAll` drops it and carries on. */
  lemma RemoveAllDrop(pattern: string, s: string)
    requires |pattern| > 0
    ensures RemoveAll(pattern + s, pattern) == RemoveAll(s, pattern)
  {
    assert (pattern + s)[..|pattern|] == pattern;
    assert (pattern + s)[|pattern|..] == s;
  }

  /**
   * Where `pattern` does not start, `RemoveAll` keeps the character and
   * carries on with the rest.
   */
  lemma RemoveAllKeep(c: char, s: string, pattern: string)
    requires |pattern| > 0 && !OccursAt([c] + s, pattern, 0)
    ensures RemoveAll([c] + s, pattern) == [c] + RemoveAll(s, pattern)
  {
    var cs := [c] + s;
    assert cs[0] == c && cs[1..] == s;
    if |cs| >= |pattern| {
      assert cs[..|pattern|] == cs[0..0 + |pattern|];
    }
  }

  /** One mismatching character, at offset `k` into the pattern, rules out an occurrence at `i`. */
  lemma MismatchBlocksOccurrence(s: string, pattern: string, i: nat, k: nat)
    requires k < |pattern| && (i + k < |s| ==> s[i + k] != pattern[k])
    ensures !OccursAt(s, pattern, i)
  {
  }
}
