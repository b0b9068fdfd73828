/** The two string primitives the type normalisation relies on: PHP's trim()
    with its default character list, and strtolower() on one character. */
module Text {

  /** The characters trim() strips by default: space, tab, line feed,
      carriage return, NUL and vertical tab. */
  predicate IsTrimmable(c: char) {
    c == ' ' || c == '\t' || c == '\n' || c == '\r' || c == '\0' || c == '\U{000B}'
  }

  /** The end of the run of trimmable characters that starts at `i`. */
  function SkipFrom(s: string, i: nat): (n: nat)
    requires i <= |s|
    ensures i <= n <= |s|
    ensures forall k :: i <= k < n ==> IsTrimmable(s[k])
    ensures n < |s| ==> !IsTrimmable(s[n])
    decreases |s| - i
  {
    if i < |s| && IsTrimmable(s[i]) then SkipFrom(s, i + 1) else i
  }

  /** The start of the run of trimmable characters that ends at `j`,
      going back no further than `lo`. */
  function SkipBack(s: string, lo: nat, j: nat): (n: nat)
    requires lo <= j <= |s|
    ensures lo <= n <= j
    ensures forall k :: n <= k < j ==> IsTrimmable(s[k])
    ensures n > lo ==> !IsTrimmable(s[n - 1])
    decreases j
  {
    if j > lo && IsTrimmable(s[j - 1]) then SkipBack(s, lo, j - 1) else j
  }

  /** trim(s): `s` with its leading and trailing trimmable characters
      removed (the result starts where the leading run ends); what is left
      neither starts nor ends with one, and is empty exactly when `s` is all
      trimmable. */
  function Trim(s: string): (r: string)
    ensures var a := SkipFrom(s, 0);
      a + |r| <= |s| && r == s[a..a + |r|] &&
      (forall k :: 0 <= k < a ==> IsTrimmable(s[k])) &&
      (forall k :: a + |r| <= k < |s| ==> IsTrimmable(s[k]))
    ensures r != [] ==> !IsTrimmable(r[0]) && !IsTrimmable(r[|r| - 1])
    ensures r == [] <==> forall k :: 0 <= k < |s| ==> IsTrimmable(s[k])
  {
    var a := SkipFrom(s, 0);
    var e := SkipBack(s, a, |s|);
    assert a < |s| ==> a < e;
    s[a..e]
  }

  /** strtolower() on one character: ASCII upper-case letters become the
      lower-case letter at the same alphabet position, everything else is kept. */
  function Lower(c: char): (r: char)
    ensures !('A' <= r <= 'Z')
    ensures 'A' <= c <= 'Z' ==> 'a' <= r <= 'z' && r as int - 'a' as int == c as int - 'A' as int
    ensures !('A' <= c <= 'Z') ==> r == c
  {
    if 'A' <= c <= 'Z' then (c as int - 'A' as int + 'a' as int) as char else c
  }
}
