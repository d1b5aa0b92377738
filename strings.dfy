/** Character-level helpers shared by the regular-expression models. */
module Strings {

  predicate StartsWith(s: string, p: string) {
    |p| <= |s| && s[..|p|] == p
  }

  /** `p` occurs somewhere in `s`, found by sliding a start position. */
  predicate Contains(s: string, p: string)
    decreases |s|
  {
    StartsWith(s, p) || (|s| > 0 && Contains(s[1..], p))
  }

  /** The regular-expression class `\d`, restricted to ASCII digits. */
  predicate IsDigit(c: char) {
    '0' <= c <= '9'
  }

  predicate AllDigits(s: string) {
    forall i | 0 <= i < |s| :: IsDigit(s[i])
  }

  /** `Contains` agrees with the positional reading: some start index of `s`
      begins an occurrence of `p`. */
  lemma {:induction false} ContainsAt(s: string, p: string)
    ensures Contains(s, p) <==> exists i | 0 <= i <= |s| :: StartsWith(s[i..], p)
    decreases |s|
  {
    if StartsWith(s, p) {
      assert s[0..] == s;
    } else if |s| == 0 {
    } else {
      ContainsAt(s[1..], p);
      if Contains(s[1..], p) {
        var i :| 0 <= i <= |s[1..]| && StartsWith(s[1..][i..], p);
        assert s[1..][i..] == s[i + 1..];
      }
      if exists i | 0 <= i <= |s| :: StartsWith(s[i..], p) {
        var i :| 0 <= i <= |s| && StartsWith(s[i..], p);
        assert i != 0 by { assert s[0..] == s; }
        assert s[1..][i - 1..] == s[i..];
      }
    }
  }
}
