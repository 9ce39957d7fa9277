/**
 The two pieces of C string handling the codec and the session rely on:
 building a string from a `const char*` (which stops at the first NUL) and
 `std::string::find` of one character (which answers `npos` when absent).
 */
module Text {

  /** `std::string::npos` on a 64-bit target. */
  const NPOS: nat := 0xffff_ffff_ffff_ffff

  /** The text a `const char*` denotes: everything before the first NUL. */
  function CString(s: string): (r: string)
    ensures r <= s
    ensures '\0' !in r
    ensures |r| < |s| ==> s[|r|] == '\0'
  {
    if |s| == 0 || s[0] == '\0' then "" else [s[0]] + CString(s[1..])
  }

  /** `s.find(c)`: the index of the first c in s, or NPOS. Every
      `std::string` is shorter than NPOS. */
  function Find(s: string, c: char): (r: nat)
    requires |s| < NPOS
    ensures r == NPOS <==> c !in s
    ensures r != NPOS ==> r < |s| && s[r] == c && c !in s[..r]
  {
    if |s| == 0 then NPOS
    else if s[0] == c then 0
    else
      var i := Find(s[1..], c);
      if i == NPOS then NPOS else i + 1
  }

  /** A string without NUL survives the round trip through `const char*` unchanged. */
  lemma {:induction false} CStringWithoutNul(s: string)
    requires '\0' !in s
    ensures CString(s) == s
  {
    if |s| > 0 {
      CStringWithoutNul(s[1..]);
    }
  }
}
