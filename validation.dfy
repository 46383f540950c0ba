/**
 * `validate_candidate`: is a string a plausible secret token? The source
 * decides with `re.fullmatch(r"[A-Za-z0-9_\-']{1,50}", token.strip())`; the
 * regular expression is modelled by a matcher for one character class
 * repeated between a lower and an upper bound.
 */
module Validation {
  import opened Strings

  const MAX_TOKEN_LENGTH := 50

  /** The character class `[A-Za-z0-9_\-']`. */
  predicate IsTokenChar(c: char) {
    ('A' <= c <= 'Z') || ('a' <= c <= 'z') || ('0' <= c <= '9') || c == '_' || c == '-' || c == '\''
  }

  predicate AllTokenChars(s: string) {
    forall k :: 0 <= k < |s| ==> IsTokenChar(s[k])
  }

  /** Full match of `[A-Za-z0-9_\-']{lo,hi}` against `s`, one character at a time. */
  function MatchesClassRepeat(s: string, lo: nat, hi: nat): bool
    decreases |s|
  {
    if s == [] then lo == 0
    else hi > 0 && IsTokenChar(s[0]) && MatchesClassRepeat(s[1..], if lo > 0 then lo - 1 else 0, hi - 1)
  }

  /** The matcher accepts exactly the strings of the class whose length is within bounds. */
  lemma {:induction false} MatchesClassRepeatIff(s: string, lo: nat, hi: nat)
    ensures MatchesClassRepeat(s, lo, hi) <==> lo <= |s| <= hi && AllTokenChars(s)
    decreases |s|
  {
    if s != [] {
      var lo' := if lo > 0 then lo - 1 else 0;
      if hi > 0 {
        MatchesClassRepeatIff(s[1..], lo', hi - 1);
        assert AllTokenChars(s) <==> IsTokenChar(s[0]) && AllTokenChars(s[1..]) by {
          if IsTokenChar(s[0]) && AllTokenChars(s[1..]) {
            forall k | 0 <= k < |s| ensures IsTokenChar(s[k]) {
              if k > 0 { assert s[k] == s[1..][k - 1]; }
            }
          }
        }
      }
    }
  }

  /** `validate_candidate(token)`. */
  function ValidateCandidate(token: string): (ok: bool)
    ensures ok <==> 1 <= |Strip(token)| <= MAX_TOKEN_LENGTH && AllTokenChars(Strip(token))
  {
    if token == "" then false
    else
      var t := Strip(token);
      if |t| < 1 || |t| > MAX_TOKEN_LENGTH then false
      else
        MatchesClassRepeatIff(t, 1, MAX_TOKEN_LENGTH);
        MatchesClassRepeat(t, 1, MAX_TOKEN_LENGTH)
  }

  /** Surrounding whitespace never changes the verdict. */
  lemma ValidateIgnoresWhitespace(s: string)
    ensures ValidateCandidate(s) == ValidateCandidate(Strip(s))
  {
    StripIdempotent(s);
  }

  /** Empty and whitespace-only strings are rejected. */
  lemma ValidateRejectsBlank(s: string)
    requires AllSpace(s)
    ensures !ValidateCandidate(s)
  {
  }

  /** Any token of the class with 1 to 50 characters is accepted as it is. */
  lemma ValidateAcceptsTokens(s: string)
    requires 1 <= |s| <= MAX_TOKEN_LENGTH && AllTokenChars(s)
    ensures ValidateCandidate(s)
  {
    assert !IsSpace(s[0]) && !IsSpace(s[|s| - 1]);
    StripUnique(s, 0, |s|);
  }

  /** A character outside the class between two characters that are not
      whitespace (so `strip` keeps it, the ends included) makes the token
      invalid: an inner space, a `$`, and so on. */
  lemma ValidateRejectsForeignChar(s: string, i: nat, k: nat, j: nat)
    requires i <= k <= j < |s| && !IsSpace(s[i]) && !IsSpace(s[j]) && !IsTokenChar(s[k])
    ensures !ValidateCandidate(s)
  {
    StripIsCore(s);
    var lo, hi := StripStart(s), StripEnd(s);
    assert lo <= i && j < hi;
    assert Strip(s)[k - lo] == s[k];
  }

  /** The length bound applies after trimming: a string longer than 50
      characters is accepted when its core is a short token. */
  lemma LongPaddedTokenAccepted()
    ensures var s := seq(60, k => ' ') + "Merlin42";
      |s| > MAX_TOKEN_LENGTH && ValidateCandidate(s)
  {
    var s := seq(60, k => ' ') + "Merlin42";
    assert forall k :: 0 <= k < 60 ==> s[k] == ' ';
    StripUnique(s, 60, 68);
    assert s[60..68] == "Merlin42";
    assert Strip(s) == "Merlin42";
  }
}
