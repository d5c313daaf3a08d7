/**
 * The few pieces of `java.lang.String` and `java.util.regex` behaviour the core
 * relies on, over `string` (a sequence of Unicode scalar values).
 */
module Text {

  /** `String.trim()` strips every character at or below U+0020. */
  predicate IsTrimmable(c: char)
  {
    c <= ' '
  }

  /** The regex class `\s`: space, tab, newline, vertical tab, form feed, carriage return. */
  predicate IsRegexSpace(c: char)
  {
    c == ' ' || c == '\t' || c == '\n' || c == '\U{B}' || c == '\U{C}' || c == '\r'
  }

  /** The regex class `\d` without the Unicode flag: ASCII digits only. */
  predicate IsDigit(c: char)
  {
    '0' <= c <= '9'
  }

  /** The regex class `[A-Za-z]`. */
  predicate IsLetter(c: char)
  {
    'A' <= c <= 'Z' || 'a' <= c <= 'z'
  }

  /** Every character of `s` is digit, as in `\d{n}`. */
  predicate AllDigits(s: string)
  {
    forall i :: 0 <= i < |s| ==> IsDigit(s[i])
  }

  function TrimStart(s: string): (r: string)
    ensures |r| <= |s| && r == s[|s| - |r|..]
    ensures forall i :: 0 <= i < |s| - |r| ==> IsTrimmable(s[i])
    ensures r == [] || !IsTrimmable(r[0])
  {
    if |s| > 0 && IsTrimmable(s[0]) then TrimStart(s[1..]) else s
  }

  function TrimEnd(s: string): (r: string)
    ensures |r| <= |s| && r == s[..|r|]
    ensures forall i :: |r| <= i < |s| ==> IsTrimmable(s[i])
    ensures r == [] || !IsTrimmable(r[|r| - 1])
  {
    if |s| > 0 && IsTrimmable(s[|s| - 1]) then TrimEnd(s[..|s| - 1]) else s
  }

  /**
   * `String.trim()`: the longest slice of `s` that neither starts nor ends with
   * a character at or below U+0020; it is empty exactly when every character is.
   */
  function Trim(s: string): (r: string)
    ensures exists k :: OccursAt(r, s, k) && TrimmedAround(s, k, k + |r|)
    ensures r == [] || (!IsTrimmable(r[0]) && !IsTrimmable(r[|r| - 1]))
    ensures |r| == 0 <==> forall i :: 0 <= i < |s| ==> IsTrimmable(s[i])
  {
    var a := TrimStart(s);
    var r := TrimEnd(a);
    SliceAround(s, a, r, |s| - |a|);
    r
  }

  /**
   * Where `Trim` leaves its result: `a` is `s` without its first `k`
   * characters, all trimmable, and `r` is `a` without trailing trimmable ones.
   */
  lemma SliceAround(s: string, a: string, r: string, k: int)
    requires 0 <= k <= |s| && a == s[k..] && |r| <= |a| && r == a[..|r|]
    requires forall j :: |r| <= j < |a| ==> IsTrimmable(a[j])
    requires forall i :: 0 <= i < k ==> IsTrimmable(s[i])
    requires r == [] || !IsTrimmable(r[0])
    ensures OccursAt(r, s, k) && TrimmedAround(s, k, k + |r|)
    ensures |r| == 0 <==> forall i :: 0 <= i < |s| ==> IsTrimmable(s[i])
  {
    assert s[k..k + |r|] == r;
    forall i | k + |r| <= i < |s|
      ensures IsTrimmable(s[i])
    {
      assert s[i] == a[i - k];
    }
    if r != [] {
      assert s[k] == r[0];
    }
  }

  /** Everything before index `lo` and from index `hi` on is at or below U+0020. */
  predicate TrimmedAround(s: string, lo: int, hi: int)
  {
    forall i :: 0 <= i < |s| && (i < lo || hi <= i) ==> IsTrimmable(s[i])
  }

  /** Trimming twice is trimming once. */
  lemma TrimIdempotent(s: string)
    ensures Trim(Trim(s)) == Trim(s)
  {
    var r := Trim(s);
    var k :| OccursAt(r, s, k) && TrimmedAround(s, k, k + |r|);
    if r != [] {
      TrimNothing(r);
    }
  }

  /** A string that neither starts nor ends with a trimmable character is its own trim. */
  lemma TrimNothing(s: string)
    requires s != [] && !IsTrimmable(s[0]) && !IsTrimmable(s[|s| - 1])
    ensures Trim(s) == s
  {
  }

  /** ASCII upper-case letters. */
  predicate IsUpper(c: char)
  {
    'A' <= c <= 'Z'
  }

  /** ASCII lower-casing of one character; every other character is unchanged. */
  function LowerChar(c: char): char
  {
    if IsUpper(c) then (c as int + 32) as char else c
  }

  /**
   * `String.toLowerCase()` on ASCII letters: each upper-case letter becomes the
   * lower-case letter 32 code points above it, everything else is kept, and no
   * upper-case letter is left.
   */
  function Lower(s: string): (r: string)
    ensures |r| == |s|
    ensures forall i :: 0 <= i < |s| && IsUpper(s[i]) ==> r[i] as int == s[i] as int + 32 && 'a' <= r[i] <= 'z'
    ensures forall i :: 0 <= i < |s| && !IsUpper(s[i]) ==> r[i] == s[i]
    ensures forall i :: 0 <= i < |r| ==> !IsUpper(r[i])
  {
    seq(|s|, i requires 0 <= i < |s| => LowerChar(s[i]))
  }

  /** Lower-casing twice is lower-casing once. */
  lemma LowerIdempotent(s: string)
    ensures Lower(Lower(s)) == Lower(s)
  {
  }

  /** `p` occurs in `s` starting at index `k`. */
  predicate OccursAt(p: string, s: string, k: int)
  {
    0 <= k && k + |p| <= |s| && s[k..k + |p|] == p
  }

  /** `p` occurs in `s` as a contiguous slice (`String.contains`). */
  predicate IsInfix(p: string, s: string)
  {
    exists k | 0 <= k <= |s| - |p| :: OccursAt(p, s, k)
  }
}
