/**
 * Whitespace trimming of the activity field, as Python's `str.strip()` with
 * no argument does it: leading and trailing characters for which
 * `str.isspace()` holds are removed, nothing else is touched.
 */
module Text {

  /** The code points Python's `str.isspace()` accepts. */
  predicate IsSpace(c: char)
  {
    var n := c as int;
    (9 <= n <= 13) || (28 <= n <= 32) || n == 0x85 || n == 0xA0 || n == 0x1680
    || (0x2000 <= n <= 0x200A) || n == 0x2028 || n == 0x2029 || n == 0x202F
    || n == 0x205F || n == 0x3000
  }

  /** Every character of `s` is whitespace (true of the empty string). */
  predicate AllSpace(s: string)
  {
    forall k :: 0 <= k < |s| ==> IsSpace(s[k])
  }

  /** The first position at or after `i` that does not hold whitespace. */
  function SkipSpaces(s: string, i: nat): (j: nat)
    requires i <= |s|
    ensures i <= j <= |s|
    ensures AllSpace(s[i..j])
    ensures j < |s| ==> !IsSpace(s[j])
    decreases |s| - i
  {
    if i == |s| || !IsSpace(s[i]) then i else SkipSpaces(s, i + 1)
  }

  /** The position after the last non-whitespace character in s[lo..j]
      (or `lo` when there is none). */
  function SkipSpacesBack(s: string, lo: nat, j: nat): (m: nat)
    requires lo <= j <= |s|
    ensures lo <= m <= j
    ensures AllSpace(s[m..j])
    ensures m > lo ==> !IsSpace(s[m - 1])
    decreases j
  {
    if j == lo || !IsSpace(s[j - 1]) then j
    else
      var m := SkipSpacesBack(s, lo, j - 1);
      assert s[m..j] == s[m..j - 1] + [s[j - 1]];
      m
  }

  /** `s.strip()`: the longest infix of `s` that neither starts nor ends with
      whitespace, with only whitespace cut away on either side. */
  function Trim(s: string): (r: string)
    ensures (r == []) == AllSpace(s)
    ensures r != [] ==> !IsSpace(r[0]) && !IsSpace(r[|r| - 1])
    ensures exists i, j {:trigger s[i..j]} ::
      0 <= i <= j <= |s| && r == s[i..j] && AllSpace(s[..i]) && AllSpace(s[j..])
  {
    var i := SkipSpaces(s, 0);
    var j := SkipSpacesBack(s, i, |s|);
    assert s[..i] == s[0..i];
    s[i..j]
  }

  /** A string that starts and ends with a non-space character is its own trim. */
  lemma TrimKeeps(s: string)
    requires s != [] && !IsSpace(s[0]) && !IsSpace(s[|s| - 1])
    ensures Trim(s) == s
  {
    assert SkipSpaces(s, 0) == 0;
    assert SkipSpacesBack(s, 0, |s|) == |s|;
  }

  /** Trimming twice is trimming once. */
  lemma TrimIdempotent(s: string)
    ensures Trim(Trim(s)) == Trim(s)
  {
    if Trim(s) != [] {
      TrimKeeps(Trim(s));
    }
  }
}
