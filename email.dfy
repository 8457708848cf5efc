/**
 * The e-mail shape check of the home page: the test of the regular expression
 * `^[^\s@]+@[^\s@]+\.[^\s@]+$`, written as a check on the structure of the string,
 * together with a literal reading of the expression and the proof that the two agree.
 */
module Email {
  import opened Wrappers
  import opened Text

  /** Every character belongs to the class `[^\s@]`. */
  predicate NoSpaceOrAt(s: string) {
    forall i :: 0 <= i < |s| ==> !IsJsSpace(s[i]) && s[i] != '@'
  }

  /** Some `.` has at least one character before it and one after it. */
  predicate HasInnerDot(d: string) {
    exists j :: 0 < j < |d| - 1 && d[j] == '.'
  }

  /**
   * `validateEmail`: a non-empty local part, the first `@`, and a domain with an inner dot,
   * none holding whitespace or another `@`. An accepted address has at least five
   * characters (`a@b.c`) and neither starts nor ends with whitespace or `@`.
   */
  predicate ValidateEmail(s: string): (ok: bool)
    ensures ok ==> |s| >= 5
    ensures ok ==> !IsJsSpace(s[0]) && s[0] != '@' && !IsJsSpace(s[|s| - 1]) && s[|s| - 1] != '@'
  {
    match IndexOf(s, '@')
    case None => false
    case Some(k) =>
      var d := s[k + 1..];
      if 0 < k && NoSpaceOrAt(s[..k]) && NoSpaceOrAt(d) && HasInnerDot(d) then
        assert s[0] == s[..k][0] && s[|s| - 1] == d[|d| - 1];
        true
      else false
  }

  /**
   * The regular expression read literally: `s` is `L + "@" + X + "." + Y` with
   * `L`, `X` and `Y` non-empty runs of `[^\s@]`.
   */
  ghost predicate MatchesEmailRegex(s: string): (ok: bool)
    ensures ok ==> |s| >= 5 && '@' in s && '.' in s
  {
    exists i, j ::
      && 0 < i && i + 1 < j && j + 1 < |s|
      && s[i] == '@' && s[j] == '.'
      && NoSpaceOrAt(s[..i]) && NoSpaceOrAt(s[i + 1..j]) && NoSpaceOrAt(s[j + 1..])
  }

  /** The structural check accepts exactly the strings the regular expression matches. */
  lemma ValidateEmailIffRegex(s: string)
    ensures ValidateEmail(s) <==> MatchesEmailRegex(s)
  {
    if ValidateEmail(s) {
      ValidImpliesRegex(s);
    }
    if MatchesEmailRegex(s) {
      var i, j :| && 0 < i && i + 1 < j && j + 1 < |s|
                  && s[i] == '@' && s[j] == '.'
                  && NoSpaceOrAt(s[..i]) && NoSpaceOrAt(s[i + 1..j]) && NoSpaceOrAt(s[j + 1..]);
      RegexImpliesValid(s, i, j);
    }
  }

  lemma ValidImpliesRegex(s: string)
    requires ValidateEmail(s)
    ensures MatchesEmailRegex(s)
  {
    var k := IndexOf(s, '@').value;
    var d := s[k + 1..];
    var jj :| 0 < jj < |d| - 1 && d[jj] == '.';
    var j := k + 1 + jj;
    assert s[k + 1..j] == d[..jj];
    assert s[j + 1..] == d[jj + 1..];
    assert NoSpaceOrAt(d[..jj]) && NoSpaceOrAt(d[jj + 1..]);
    assert s[k] == '@' && s[j] == '.';
  }

  lemma RegexImpliesValid(s: string, i: int, j: int)
    requires && 0 < i && i + 1 < j && j + 1 < |s|
             && s[i] == '@' && s[j] == '.'
             && NoSpaceOrAt(s[..i]) && NoSpaceOrAt(s[i + 1..j]) && NoSpaceOrAt(s[j + 1..])
    ensures ValidateEmail(s)
  {
    assert '@' !in s[..i];
    var k := IndexOf(s, '@').value;
    assert k == i;
    var d := s[i + 1..];
    assert d == s[i + 1..j] + ['.'] + s[j + 1..];
    assert d[j - i - 1] == '.';
    assert NoSpaceOrAt(d);
  }

  /** An accepted address has exactly one `@`, no whitespace at all, and is not empty. */
  lemma ValidEmailShape(s: string)
    requires ValidateEmail(s)
    ensures Count(s, '@') == 1
    ensures forall i :: 0 <= i < |s| ==> !IsJsSpace(s[i])
    ensures s != []
  {
    var k := IndexOf(s, '@').value;
    assert '@' !in s[k + 1..];
    assert s == s[..k] + ['@'] + s[k + 1..];
    CountSingle(s[..k], '@', s[k + 1..]);
    forall i | 0 <= i < |s| ensures !IsJsSpace(s[i]) {
      if i < k { assert s[i] == s[..k][i]; }
      else if i > k { assert s[i] == s[k + 1..][i - k - 1]; }
    }
  }
}
