/** C strings inside longer pieces of memory. */
module CStrings {
  import opened Texts

  // isspace in the C locale.
  predicate IsSpace(c: char) {
    c == ' ' || 0x09 <= c as int <= 0x0d
  }

  /** The text before the first NUL, or all of it. */
  function Head(s: string): (r: string)
    ensures |r| <= |s| && r == s[..|r|] && '\0' !in r && (|r| < |s| ==> s[|r|] == '\0')
  {
    Upto(s, '\0')
  }

  // Nothing else is: a prefix without NUL that a NUL or the end follows.
  lemma HeadIs(s: string, r: string)
    requires |r| <= |s| && r == s[..|r|] && '\0' !in r && (|r| < |s| ==> s[|r|] == '\0')
    ensures Head(s) == r
  {
    var h := Head(s);
    assert forall i | 0 <= i < |h| :: h[i] == s[i] && s[i] != '\0';
    assert forall i | 0 <= i < |r| :: r[i] == s[i] && s[i] != '\0';
  }
}
