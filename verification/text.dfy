/** The string handling the tracker applies to show names: `str.strip()` on
    what the user typed and `str.lower()` for the duplicate check. */
module Text {

  /** Python's `str.isspace()`: the characters `str.strip()` removes. */
  predicate IsSpace(c: char) {
    var n := c as int;
    || 0x09 <= n <= 0x0D
    || 0x1C <= n <= 0x20
    || n == 0x85 || n == 0xA0 || n == 0x1680
    || 0x2000 <= n <= 0x200A
    || n == 0x2028 || n == 0x2029 || n == 0x202F || n == 0x205F || n == 0x3000
  }

  /** Number of whitespace characters at the front of `s`. */
  function LeadingSpaces(s: string): (n: nat)
    ensures n <= |s|
    ensures forall k :: 0 <= k < n ==> IsSpace(s[k])
    ensures n < |s| ==> !IsSpace(s[n])
  {
    if |s| == 0 || !IsSpace(s[0]) then 0 else 1 + LeadingSpaces(s[1..])
  }

  /** Number of whitespace characters at the back of `s`. */
  function TrailingSpaces(s: string): (n: nat)
    ensures n <= |s|
    ensures forall k :: |s| - n <= k < |s| ==> IsSpace(s[k])
    ensures n < |s| ==> !IsSpace(s[|s| - n - 1])
  {
    if |s| == 0 || !IsSpace(s[|s| - 1]) then 0 else 1 + TrailingSpaces(s[..|s| - 1])
  }

  /** `s.strip()`: the longest middle slice of `s` that neither starts nor
      ends with whitespace, everything cut off being whitespace. */
  function Strip(s: string): (r: string)
    ensures exists i, j :: 0 <= i <= j <= |s| && r == s[i..j]
                           && (forall k :: 0 <= k < i ==> IsSpace(s[k]))
                           && (forall k :: j <= k < |s| ==> IsSpace(s[k]))
    ensures |r| > 0 ==> !IsSpace(r[0]) && !IsSpace(r[|r| - 1])
    ensures forall k :: 0 <= k < |s| && !IsSpace(s[k]) ==> |r| > 0
  {
    var front := LeadingSpaces(s);
    var rest := s[front..];
    var back := TrailingSpaces(rest);
    assert rest[..|rest| - back] == s[front..|s| - back];
    rest[..|rest| - back]
  }

  /** `c.lower()` on the ASCII letters; every other character is kept. */
  function LowerChar(c: char): char {
    if 'A' <= c <= 'Z' then (c as int + 32) as char else c
  }

  function Lower(s: string): (r: string)
    ensures |r| == |s|
    ensures forall k :: 0 <= k < |s| ==> r[k] == LowerChar(s[k])
  {
    seq(|s|, k requires 0 <= k < |s| => LowerChar(s[k]))
  }

  /** Two show names the tracker treats as the same show. */
  predicate SameName(a: string, b: string) {
    Lower(a) == Lower(b)
  }

  /** `x` and `y` are the same character, or one ASCII letter in its two
      cases. */
  predicate SameLetterIgnoringCase(x: char, y: char) {
    || x == y
    || ('A' <= x <= 'Z' && y as int == x as int + 32)
    || ('A' <= y <= 'Z' && x as int == y as int + 32)
  }

  lemma LowerCharIff(x: char, y: char)
    ensures LowerChar(x) == LowerChar(y) <==> SameLetterIgnoringCase(x, y)
  {
  }

  /** The duplicate test compares names position by position, letting an
      ASCII letter match itself in the other case and nothing else. */
  lemma SameNameIff(a: string, b: string)
    ensures SameName(a, b) <==>
              && |a| == |b|
              && forall k :: 0 <= k < |a| ==> SameLetterIgnoringCase(a[k], b[k])
  {
  }

  /** Lower-casing twice is lower-casing once. */
  lemma LowerIdempotent(s: string)
    ensures Lower(Lower(s)) == Lower(s)
  {
  }

  /** Surrounding spaces are cut, inner characters kept. */
  lemma StripExample()
    ensures Strip("  severance ") == "severance"
  {
    var typed := "  severance ";
    assert typed[1..] == " severance " && typed[2..] == "severance ";
    assert LeadingSpaces(typed[2..]) == 0;
    assert LeadingSpaces(typed[1..]) == 1;
    assert LeadingSpaces(typed) == 2;
    var rest := typed[2..];
    assert rest[..|rest| - 1] == "severance";
    assert TrailingSpaces(rest[..|rest| - 1]) == 0;
    assert TrailingSpaces(rest) == 1;
  }
}
