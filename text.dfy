/**
 * The string operations the calculator relies on, with Python's meaning:
 * `str.strip()` with no argument, the `in` substring test and the
 * code-point order that `sorted` uses on strings.
 */
module Text {

  /**
   * The code points Python's `str.isspace` accepts, exactly the characters
   * `str.strip()` removes: U+0009..U+000D, U+001C..U+0020, U+0085, U+00A0,
   * U+1680, U+2000..U+200A, U+2028, U+2029, U+202F, U+205F and U+3000.
   */
  const SPACE_CODES: set<int> :=
    {9, 10, 11, 12, 13, 28, 29, 30, 31, 32, 0x85, 0xA0, 0x1680,
     0x2000, 0x2001, 0x2002, 0x2003, 0x2004, 0x2005, 0x2006, 0x2007, 0x2008, 0x2009, 0x200A,
     0x2028, 0x2029, 0x202F, 0x205F, 0x3000}

  predicate IsSpace(c: char) {
    c as int in SPACE_CODES
  }

  predicate AllSpace(s: string) {
    forall i :: 0 <= i < |s| ==> IsSpace(s[i])
  }

  /** Neither the first nor the last character is whitespace. */
  predicate IsTrimmed(s: string) {
    |s| == 0 || (!IsSpace(s[0]) && !IsSpace(s[|s| - 1]))
  }

  /** A whitespace character in front of a suffix whose prefix is all whitespace. */
  lemma LeadingSpaceStep(s: string, r: string)
    requires 0 < |s| && IsSpace(s[0]) && |r| < |s|
    requires r == s[1..][|s| - 1 - |r|..] && AllSpace(s[1..][..|s| - 1 - |r|])
    ensures r == s[|s| - |r|..] && AllSpace(s[..|s| - |r|])
  {
    var k := |s| - |r|;
    assert s[1..][k - 1..] == s[k..];
    assert forall j :: 1 <= j < k ==> s[..k][j] == s[1..][..k - 1][j - 1];
  }

  /** A whitespace character behind a prefix whose suffix is all whitespace. */
  lemma TrailingSpaceStep(s: string, r: string)
    requires 0 < |s| && IsSpace(s[|s| - 1]) && |r| < |s|
    requires r == s[..|s| - 1][..|r|] && AllSpace(s[..|s| - 1][|r|..])
    ensures r == s[..|r|] && AllSpace(s[|r|..])
  {
    assert s[..|s| - 1][..|r|] == s[..|r|];
    assert s[|r|..] == s[..|s| - 1][|r|..] + [s[|s| - 1]];
  }

  /** `s.lstrip()`: drops the leading whitespace and nothing else. */
  function TrimStart(s: string): (r: string)
    ensures |r| <= |s| && r == s[|s| - |r|..]
    ensures AllSpace(s[..|s| - |r|])
    ensures |r| > 0 ==> !IsSpace(r[0])
  {
    if |s| > 0 && IsSpace(s[0]) then
      var r := TrimStart(s[1..]);
      LeadingSpaceStep(s, r);
      r
    else
      s
  }

  /** `s.rstrip()`: drops the trailing whitespace and nothing else. */
  function TrimEnd(s: string): (r: string)
    ensures |r| <= |s| && r == s[..|r|]
    ensures AllSpace(s[|r|..])
    ensures |r| > 0 ==> !IsSpace(r[|r| - 1])
  {
    if |s| > 0 && IsSpace(s[|s| - 1]) then
      var r := TrimEnd(s[..|s| - 1]);
      TrailingSpaceStep(s, r);
      r
    else
      s
  }

  /**
   * `s.strip()`: the result has no surrounding whitespace and is the middle
   * of `s` once a whitespace prefix and a whitespace suffix are cut off.
   */
  function Trim(s: string): (r: string)
    ensures IsTrimmed(r)
    ensures exists i :: StrippedAt(s, r, i)
  {
    var m := TrimStart(s);
    var r := TrimEnd(m);
    StrippedMiddle(s, m, r);
    r
  }

  /** `r` sits at offset `i` of `s` with only whitespace before and after it. */
  predicate StrippedAt(s: string, r: string, i: int) {
    0 <= i <= |s| - |r| && s[i..i + |r|] == r && AllSpace(s[..i]) && AllSpace(s[i + |r|..])
  }

  /** Cutting a whitespace prefix, then a whitespace suffix leaves `r` in the middle of `s`. */
  lemma StrippedMiddle(s: string, m: string, r: string)
    requires |m| <= |s| && m == s[|s| - |m|..] && AllSpace(s[..|s| - |m|])
    requires |r| <= |m| && r == m[..|r|] && AllSpace(m[|r|..])
    ensures StrippedAt(s, r, |s| - |m|)
  {
    var i := |s| - |m|;
    assert s[i..i + |r|] == m[..|r|];
    assert s[i + |r|..] == m[|r|..];
  }

  /** A character that is not whitespace survives stripping, at its shifted position. */
  lemma NonSpaceKept(s: string, r: string, i: int, k: int)
    requires StrippedAt(s, r, i) && 0 <= k < |s| && !IsSpace(s[k])
    ensures i <= k < i + |r| && r[k - i] == s[k]
  {
    assert i <= k < i + |r| ==> s[i..i + |r|][k - i] == s[k];
  }

  /** Stripping a string that is already stripped changes nothing. */
  lemma TrimTrimmed(s: string)
    requires IsTrimmed(s)
    ensures Trim(s) == s
  {
  }

  /** Stripping is idempotent. */
  lemma TrimIdempotent(s: string)
    ensures Trim(Trim(s)) == Trim(s)
  {
    TrimTrimmed(Trim(s));
  }

  predicate StartsWith(s: string, p: string) {
    |p| <= |s| && s[..|p|] == p
  }

  /** Python's `p in s`: case-sensitive substring test, scanning `s` from the left. */
  predicate Contains(s: string, p: string) {
    StartsWith(s, p) || (|s| > 0 && Contains(s[1..], p))
  }

  /** `p` occurs in `s` starting at position `i`. */
  predicate OccursAt(s: string, p: string, i: int) {
    0 <= i <= |s| - |p| && s[i..i + |p|] == p
  }

  /** The scan finds `p` exactly when `p` occurs at some position of `s`. */
  lemma {:induction false} ContainsAt(s: string, p: string)
    ensures Contains(s, p) <==> exists i :: OccursAt(s, p, i)
  {
    if StartsWith(s, p) {
      assert OccursAt(s, p, 0);
    } else if |s| > 0 {
      ContainsAt(s[1..], p);
      if Contains(s[1..], p) {
        var i :| OccursAt(s[1..], p, i);
        assert s[i + 1..i + 1 + |p|] == s[1..][i..i + |p|];
        assert OccursAt(s, p, i + 1);
      }
      if i :| OccursAt(s, p, i) {
        assert i != 0;
        assert s[1..][i - 1..i - 1 + |p|] == s[i..i + |p|];
        assert OccursAt(s[1..], p, i - 1);
      }
    }
  }

  /** A string holding `p` holds the first character of `p`. */
  lemma {:induction false} ContainsFirstChar(s: string, p: string)
    requires 0 < |p| && Contains(s, p)
    ensures p[0] in s
  {
    if StartsWith(s, p) {
      assert s[0] == p[0];
    } else {
      ContainsFirstChar(s[1..], p);
      var k :| 0 <= k < |s[1..]| && s[1..][k] == p[0];
      assert s[k + 1] == p[0];
    }
  }

  /** A string that starts with `p` holds `p`. */
  lemma PrefixContained(s: string, p: string)
    requires |p| <= |s| && s[..|p|] == p
    ensures Contains(s, p)
  {
  }

  /** A string lacking the first character of `p` does not hold `p`. */
  lemma LacksFirstChar(s: string, p: string)
    requires 0 < |p| && p[0] !in s
    ensures !Contains(s, p)
  {
    if Contains(s, p) {
      ContainsFirstChar(s, p);
    }
  }

  /** Python's `a < b` on strings: lexicographic by code point, a proper prefix first. */
  predicate Below(a: string, b: string) {
    if |a| == 0 then |b| > 0
    else |b| > 0 && (if a[0] == b[0] then Below(a[1..], b[1..]) else a[0] < b[0])
  }

  lemma {:induction false} BelowIrreflexive(a: string)
    ensures !Below(a, a)
  {
    if |a| > 0 {
      BelowIrreflexive(a[1..]);
    }
  }

  lemma {:induction false} BelowTransitive(a: string, b: string, c: string)
    requires Below(a, b) && Below(b, c)
    ensures Below(a, c)
  {
    if |a| > 0 && a[0] == b[0] && b[0] == c[0] {
      BelowTransitive(a[1..], b[1..], c[1..]);
    }
  }

  /** Any two different strings are ordered one way or the other. */
  lemma {:induction false} BelowTotal(a: string, b: string)
    requires a != b
    ensures Below(a, b) || Below(b, a)
  {
    if |a| > 0 && |b| > 0 && a[0] == b[0] {
      assert a == [a[0]] + a[1..] && b == [b[0]] + b[1..];
      BelowTotal(a[1..], b[1..]);
    }
  }
}
