/** The username validator of validators.py: a non-empty check followed by
    the pattern `^[\w.@+-]+$`, applied with Python's `re.search`. */
module Usernames {
  import opened Outcome

  /** Python's `\w`, approximated by its ASCII part. */
  predicate IsWordChar(c: char)
  {
    ('a' <= c <= 'z') || ('A' <= c <= 'Z') || ('0' <= c <= '9') || c == '_'
  }

  /** The character class `[\w.@+-]`. */
  predicate IsNameChar(c: char)
  {
    IsWordChar(c) || c == '.' || c == '@' || c == '+' || c == '-'
  }

  predicate AllNameChars(s: string)
  {
    forall i :: 0 <= i < |s| ==> IsNameChar(s[i])
  }

  /** What the pattern accepts: a non-empty run of name characters from the
      start that ends either at the end of the string or, because `$`
      also matches just before a final newline, at a final "\n". */
  predicate MatchesPattern(s: string)
  {
    || (|s| > 0 && AllNameChars(s))
    || (|s| > 1 && s[|s| - 1] == '\n' && AllNameChars(s[..|s| - 1]))
  }

  /** The regex engine's run of the pattern: `^` anchors at position 0, the
      greedy `+` consumes name characters, and `$` is tried where it stops.
      Backtracking never helps: every earlier stop is followed by a name
      character, at which `$` cannot match. */
  method Match(s: string) returns (matched: bool)
    ensures matched <==> MatchesPattern(s)
  {
    var i := 0;
    while i < |s| && IsNameChar(s[i])
      invariant 0 <= i <= |s|
      invariant AllNameChars(s[..i])
    {
      i := i + 1;
    }
    if i < |s| && !AllNameChars(s) {
      assert !IsNameChar(s[i]);
    }
    if i < |s| - 1 {
      assert !AllNameChars(s[..|s| - 1]) by {
        assert s[..|s| - 1][i] == s[i];
      }
    }
    if i == |s| {
      assert s[..i] == s;
    }
    matched := i > 0 && (i == |s| || (i == |s| - 1 && s[i] == '\n'));
  }

  /** `validate_username`: the value passes unchanged, or the validator
      raises; `Required` for the empty string, `BadFormat` otherwise. */
  function ValidateUsername(value: string): (r: Result<string>)
    ensures r.Ok? <==> MatchesPattern(value)
    ensures r.Ok? ==> r.value == value
    ensures r.Fail? ==> r.failure == Invalid(if value == "" then Required else BadFormat)
  {
    if value == "" then Fail(Invalid(Required))
    else if !MatchesPattern(value) then Fail(Invalid(BadFormat))
    else Ok(value)
  }

  /** Appending a single newline to an accepted name keeps it accepted, and
      the name "me" passes this validator. */
  lemma TrailingNewlineAccepted(name: string)
    requires ValidateUsername(name).Ok? && name[|name| - 1] != '\n'
    ensures ValidateUsername(name + "\n").Ok?
    ensures ValidateUsername("me") == Ok("me")
  {
    assert AllNameChars(name);
    assert (name + "\n")[..|name + "\n"| - 1] == name;
  }

  /** A character outside the class anywhere but at the final position, or a
      final character other than a newline, makes the name rejected. */
  lemma ForeignCharacterRejected(s: string, k: int)
    requires 0 <= k < |s| && !IsNameChar(s[k])
    requires k < |s| - 1 || s[k] != '\n'
    ensures ValidateUsername(s).Fail?
  {
    if k < |s| - 1 {
      assert s[..|s| - 1][k] == s[k];
    }
  }
}
