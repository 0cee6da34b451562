/** Case-insensitive substring matching, as the search uses it: both sides are
    lower-cased and the term must occur somewhere in the field. */
module Text {

  /** ASCII lower-casing of one character; every other character is left alone. */
  function LowerChar(c: char): char {
    if 'A' <= c <= 'Z' then (c as int + 32) as char else c
  }

  function Lower(s: string): (r: string)
    ensures |r| == |s|
    ensures forall i :: 0 <= i < |s| ==> r[i] == LowerChar(s[i])
  {
    seq(|s|, i requires 0 <= i < |s| => LowerChar(s[i]))
  }

  /** `pat` occurs in `s` starting at some position. */
  ghost predicate IsSubstring(pat: string, s: string) {
    exists i :: 0 <= i <= |s| && pat <= s[i..]
  }

  /** Executable substring test: does `pat` occur in `s`? */
  function Occurs(pat: string, s: string): (r: bool)
    ensures r <==> IsSubstring(pat, s)
    decreases |s|
  {
    if pat <= s then
      assert s[0..] == s;
      true
    else if |s| == 0 then
      assert !IsSubstring(pat, s) by {
        forall i | 0 <= i <= |s| ensures !(pat <= s[i..]) {
          assert s[i..] == s;
        }
      }
      false
    else
      var rest := Occurs(pat, s[1..]);
      assert rest <==> IsSubstring(pat, s) by {
        forall i | 0 <= i <= |s| - 1 ensures s[1..][i..] == s[i + 1..] { }
        if IsSubstring(pat, s) {
          var i :| 0 <= i <= |s| && pat <= s[i..];
          assert i != 0 by { assert s[0..] == s; }
          assert pat <= s[1..][i - 1..];
        }
        if rest {
          var j :| 0 <= j <= |s| - 1 && pat <= s[1..][j..];
          assert pat <= s[j + 1..];
        }
      }
      rest
  }

  /** `term` occurs in `field` when case is ignored. */
  ghost predicate MentionsIgnoringCase(field: string, term: string) {
    IsSubstring(Lower(term), Lower(field))
  }

  /** Executable form of `MentionsIgnoringCase`. */
  function ContainsIgnoringCase(field: string, term: string): (r: bool)
    ensures r <==> MentionsIgnoringCase(field, term)
  {
    Occurs(Lower(term), Lower(field))
  }
}
