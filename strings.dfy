/**
 * The few string operations of Python's `str` that the solver relies on, over
 * ASCII: `strip()`, `upper()`, `lower()` and the substring test `k in text`.
 */
module Strings {

  /** The ASCII characters for which Python's `str.isspace()` holds and which
      `str.strip()` therefore removes: \t \n \v \f \r, the separators
      \x1c-\x1f, and the space. */
  predicate IsSpace(c: char) {
    9 <= c as int <= 13 || 28 <= c as int <= 32
  }

  predicate AllSpace(s: string) {
    forall k :: 0 <= k < |s| ==> IsSpace(s[k])
  }

  /** The first index at or after `i` that holds no whitespace, or |s|. */
  function SkipSpaceForward(s: string, i: nat): (r: nat)
    requires i <= |s|
    ensures i <= r <= |s|
    ensures forall k :: i <= k < r ==> IsSpace(s[k])
    ensures r < |s| ==> !IsSpace(s[r])
    decreases |s| - i
  {
    if i == |s| || !IsSpace(s[i]) then i else SkipSpaceForward(s, i + 1)
  }

  /** The least index at or before `j` from which up to `j` all is whitespace. */
  function SkipSpaceBackward(s: string, j: nat): (r: nat)
    requires j <= |s|
    ensures r <= j
    ensures forall k :: r <= k < j ==> IsSpace(s[k])
    ensures r > 0 ==> !IsSpace(s[r - 1])
  {
    if j == 0 || !IsSpace(s[j - 1]) then j else SkipSpaceBackward(s, j - 1)
  }

  /** Where the stripped text starts and ends inside `s`. */
  function StripStart(s: string): (i: nat)
    ensures i <= |s|
  {
    SkipSpaceForward(s, 0)
  }

  function StripEnd(s: string): (j: nat)
    ensures StripStart(s) <= j <= |s|
  {
    var e := SkipSpaceBackward(s, |s|);
    if e < StripStart(s) then StripStart(s) else e
  }

  /** `s.strip()`: `s` without its leading and trailing whitespace. */
  function Strip(s: string): (r: string)
    ensures |r| <= |s|
    ensures r == [] || (!IsSpace(r[0]) && !IsSpace(r[|r| - 1]))
    ensures r == [] <==> AllSpace(s)
  {
    s[StripStart(s)..StripEnd(s)]
  }

  /** What Strip keeps is the slice between the two runs of whitespace. */
  lemma StripIsCore(s: string)
    ensures Strip(s) == s[StripStart(s)..StripEnd(s)]
    ensures forall k :: 0 <= k < StripStart(s) ==> IsSpace(s[k])
    ensures forall k :: StripEnd(s) <= k < |s| ==> IsSpace(s[k])
  {
  }

  /** Strip is determined by its contract: the core left between two runs of
      whitespace, with no whitespace at either end of it, is the only result. */
  lemma StripUnique(s: string, i: nat, j: nat)
    requires i <= j <= |s|
    requires forall k :: 0 <= k < i ==> IsSpace(s[k])
    requires forall k :: j <= k < |s| ==> IsSpace(s[k])
    requires i == j || (!IsSpace(s[i]) && !IsSpace(s[j - 1]))
    ensures Strip(s) == s[i..j]
  {
    StripIsCore(s);
  }

  /** Stripping twice is stripping once. */
  lemma StripIdempotent(s: string)
    ensures Strip(Strip(s)) == Strip(s)
  {
    var t := Strip(s);
    StripUnique(t, 0, |t|);
  }

  /** ASCII `str.upper()` on one character. */
  function UpperChar(c: char): char {
    if 'a' <= c <= 'z' then (c as int - 32) as char else c
  }

  /** ASCII `str.lower()` on one character. */
  function LowerChar(c: char): char {
    if 'A' <= c <= 'Z' then (c as int + 32) as char else c
  }

  /** `s.upper()`, character by character. */
  function Upper(s: string): (r: string)
    ensures |r| == |s|
    ensures forall k :: 0 <= k < |s| ==> r[k] == UpperChar(s[k])
  {
    if s == [] then [] else [UpperChar(s[0])] + Upper(s[1..])
  }

  /** `s.lower()`, character by character. */
  function Lower(s: string): (r: string)
    ensures |r| == |s|
    ensures forall k :: 0 <= k < |s| ==> r[k] == LowerChar(s[k])
  {
    if s == [] then [] else [LowerChar(s[0])] + Lower(s[1..])
  }

  /** The sixteen spellings of "none" in any mix of cases. */
  predicate CaselessNone(s: string) {
    |s| == 4 && (s[0] == 'n' || s[0] == 'N') && (s[1] == 'o' || s[1] == 'O')
    && (s[2] == 'n' || s[2] == 'N') && (s[3] == 'e' || s[3] == 'E')
  }

  /** `s.upper() == "NONE"` holds exactly for the caseless spellings of "none". */
  lemma UpperIsNone(s: string)
    ensures Upper(s) == "NONE" <==> CaselessNone(s)
  {
    var u := Upper(s);
    if |s| == 4 {
      assert u == [UpperChar(s[0]), UpperChar(s[1]), UpperChar(s[2]), UpperChar(s[3])];
    }
  }

  /** Python's `sub in s`. */
  predicate Contains(s: string, sub: string) {
    exists i | 0 <= i <= |s| :: sub <= s[i..]
  }
}
