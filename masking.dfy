/**
 * The redaction helpers of the home page, `hideEmail` and `hidePhone`, and the
 * calling-code prefix removal `replace(/^\+\d+\s*\/, '')` that `hidePhone`, the phone
 * input handler and the phone field's rendering share.
 */
module Masking {
  import opened Wrappers
  import opened Text

  /** What `hideEmail` returns for an empty address. */
  const EmailPlaceholder: string := "s****g@m****.com"

  /** What `hidePhone` returns for an empty number or one with fewer than two characters left. */
  const PhonePlaceholder: string := "******32"

  /** `s.charAt(i)`: the empty string when `i` is out of range. */
  function CharAt(s: string, i: nat): (r: string)
    ensures |r| == (if i < |s| then 1 else 0)
    ensures i < |s| ==> r[0] == s[i]
  {
    if i < |s| then [s[i]] else []
  }

  /** `Math.max(0, n)` */
  function Max0(n: int): (r: nat)
    ensures r >= n && (r == 0 || r == n)
  {
    if n < 0 then 0 else n
  }

  // ---------------------------------------------------------------------------
  // hideEmail

  /** `hideEmail`, branch for branch. */
  function HideEmail(email: string): (r: string)
    ensures email == [] ==> r == EmailPlaceholder
  {
    if email == [] then EmailPlaceholder
    else
      var parts := Split(email, '@');
      if |parts| != 2 then email
      else
        var username := parts[0];
        var domain := parts[1];
        var domainParts := Split(domain, '.');
        if |username| <= 1 then email
        else if |domainParts| < 2 then email
        else FormatUsername(username) + "@" + FormatDomain(domainParts)
  }

  /**
   * The first and last characters of the local part around `*` for each one between:
   * the masked local part has the length of the original. The `|username| > 1` test
   * is the one `hideEmail` repeats inside its expression; it always holds here.
   */
  function FormatUsername(username: string): (r: string)
    requires |username| > 1
    ensures |r| == |username|
    ensures r[0] == username[0] && r[|r| - 1] == username[|username| - 1]
    ensures forall i :: 0 < i < |username| - 1 ==> r[i] == '*'
  {
    [username[0]] + Stars(Max0(|username| - 2))
    + (if |username| > 1 then [username[|username| - 1]] else [])
  }

  /**
   * The first character of the first domain label, `*` for each other one, then `.`
   * and the remaining labels joined by `.`: the masked label keeps its length.
   */
  function FormatDomain(domainParts: seq<string>): (r: string)
    requires |domainParts| >= 2
    ensures var first := domainParts[0];
            && |r| == |first| + 1 + |Join(domainParts[1..], '.')|
            && (first != [] ==> r[0] == first[0])
            && (forall i :: 0 < i < |first| ==> r[i] == '*')
            && r[|first|] == '.'
            && r[|first| + 1..] == Join(domainParts[1..], '.')
  {
    CharAt(domainParts[0], 0) + Stars(Max0(|domainParts[0]| - 1)) + "." + Join(domainParts[1..], '.')
  }

  /**
   * Position of the first occurrence of `c`, or `|s|` when there is none: `IndexOf`
   * with its `None` case folded into a number, so that the specifications below can
   * slice at it without a case split.
   */
  ghost function FirstIndex(s: string, c: char): (k: nat)
    ensures k <= |s| && c !in s[..k]
    ensures k < |s| <==> c in s
    ensures k < |s| ==> s[k] == c
  {
    match IndexOf(s, c)
    case None => |s|
    case Some(k) => k
  }

  /** The addresses `hideEmail` masks: one `@`, a local part of two or more characters, a `.` in the domain. */
  ghost predicate Maskable(email: string) {
    var k := FirstIndex(email, '@');
    && Count(email, '@') == 1
    && 2 <= k < |email|
    && '.' in email[k + 1..]
  }

  /**
   * The positions `hideEmail` overwrites with `*`: the interior of the local part,
   * and every character of the first domain label after its first.
   */
  ghost predicate MaskedAt(email: string, i: int)
    requires Maskable(email)
  {
    var k := FirstIndex(email, '@');
    var j := FirstIndex(email[k + 1..], '.');
    (0 < i < k - 1) || (k + 2 <= i <= k + j)
  }

  /** In an address with exactly one `@`, the domain after it holds no `@`. */
  lemma SingleAtDomain(email: string)
    requires Count(email, '@') == 1
    ensures var k := FirstIndex(email, '@');
            && k < |email|
            && '@' !in email[k + 1..]
  {
    CountZero(email, '@');
    var k := FirstIndex(email, '@');
    var u, d := email[..k], email[k + 1..];
    assert email == u + ['@'] + d;
    CountAround(u, '@', d);
    CountZero(u, '@');
    CountZero(d, '@');
  }

  /** An address with exactly one `@` splits on `@` into its local part and its domain. */
  lemma SplitAtSingleAt(email: string)
    requires Count(email, '@') == 1
    ensures var k := FirstIndex(email, '@');
            && k < |email|
            && Split(email, '@') == [email[..k], email[k + 1..]]
  {
    SingleAtDomain(email);
    var k := FirstIndex(email, '@');
    var d := email[k + 1..];
    assert IndexOf(email, '@') == Some(k);
    assert IndexOf(d, '@') == None;
    assert Split(d, '@') == [d];
  }

  /** On an address built from its parts, `hideEmail` masks the local part and the first domain label and keeps the rest. */
  lemma HideEmailOfParts(u: string, first: string, rest: string)
    requires |u| >= 2 && '@' !in u && '@' !in first && '@' !in rest && '.' !in first
    ensures HideEmail(u + "@" + (first + "." + rest))
            == FormatUsername(u) + "@" + (CharAt(first, 0) + Stars(Max0(|first| - 1)) + "." + rest)
  {
    var d := first + "." + rest;
    AtSplitOfParts(u, d);
    DomainSplitOfParts(first, rest);
    var domainParts := Split(d, '.');
    FormatDomainOf(domainParts, first, rest);
  }

  lemma AtSplitOfParts(u: string, d: string)
    requires '@' !in u && '@' !in d
    ensures Split(u + "@" + d, '@') == [u, d]
  {
    assert u + "@" + d == u + ['@'] + d;
    SplitAtFirst(u, '@', d);
  }

  lemma DomainSplitOfParts(first: string, rest: string)
    requires '.' !in first
    ensures var parts := Split(first + "." + rest, '.');
            |parts| >= 2 && parts[0] == first && Join(parts[1..], '.') == rest
  {
    assert first + "." + rest == first + ['.'] + rest;
    SplitAtFirst(first, '.', rest);
    JoinSplit(rest, '.');
  }

  lemma FormatDomainOf(domainParts: seq<string>, first: string, rest: string)
    requires |domainParts| >= 2 && domainParts[0] == first && Join(domainParts[1..], '.') == rest
    ensures FormatDomain(domainParts) == CharAt(first, 0) + Stars(Max0(|first| - 1)) + "." + rest
  {
  }

  /** A masked address keeps its length, and each character is either kept or masked with `*`. */
  lemma HideEmailMasks(email: string)
    requires Maskable(email)
    ensures |HideEmail(email)| == |email|
    ensures forall i :: 0 <= i < |email| ==>
              HideEmail(email)[i] == (if MaskedAt(email, i) then '*' else email[i])
  {
    var k := FirstIndex(email, '@');
    var j := FirstIndex(email[k + 1..], '.');
    MaskableParts(email);
    MasksAt(email, k, j);
    forall i | 0 <= i < |email|
      ensures MaskedAt(email, i) == (0 < i < k - 1 || k + 2 <= i <= k + j)
    {
    }
  }

  /** Where the `@` and the first `.` after it sit in a maskable address. */
  lemma MaskableParts(email: string)
    requires Maskable(email)
    ensures var k := FirstIndex(email, '@');
            var j := FirstIndex(email[k + 1..], '.');
            && 2 <= k && k + 1 + j < |email|
            && email[k] == '@' && email[k + 1 + j] == '.'
            && '@' !in email[..k] && '@' !in email[k + 1..] && '.' !in email[k + 1..k + 1 + j]
  {
    var k := FirstIndex(email, '@');
    SingleAtDomain(email);
    var d := email[k + 1..];
    var j := FirstIndex(d, '.');
    assert email[k + 1 + j] == d[j];
    assert email[k + 1..k + 1 + j] == d[..j];
  }

  /** `hideEmail` on an address whose only `@` is at `k` and whose first `.` after it is `j` further on. */
  lemma MasksAt(email: string, k: nat, j: nat)
    requires 2 <= k && k + 1 + j < |email|
    requires email[k] == '@' && email[k + 1 + j] == '.'
    requires '@' !in email[..k] && '@' !in email[k + 1..] && '.' !in email[k + 1..k + 1 + j]
    ensures |HideEmail(email)| == |email|
    ensures forall i :: 0 <= i < |email| ==>
              HideEmail(email)[i] == (if 0 < i < k - 1 || k + 2 <= i <= k + j then '*' else email[i])
  {
    var u, first, rest := email[..k], email[k + 1..k + 1 + j], email[k + 2 + j..];
    assert email == u + "@" + (first + "." + rest);
    assert first == email[k + 1..][..j] && rest == email[k + 1..][j + 1..];
    HideEmailOfParts(u, first, rest);
    MaskedShape(u, first, rest);
  }

  /** The characters of the masked form built from the parts of an address. */
  lemma MaskedShape(u: string, first: string, rest: string)
    requires |u| >= 2
    ensures var r := FormatUsername(u) + "@" + (CharAt(first, 0) + Stars(Max0(|first| - 1)) + "." + rest);
            var email := u + "@" + (first + "." + rest);
            && |r| == |email|
            && forall i :: 0 <= i < |email| ==>
                 r[i] == (if 0 < i < |u| - 1 || |u| + 2 <= i <= |u| + |first| then '*' else email[i])
  {
    var email := u + "@" + (first + "." + rest);
    var k, j := |u|, |first|;
    var fu := FormatUsername(u);
    assert fu == [u[0]] + Stars(k - 2) + [u[k - 1]];
    var fd := CharAt(first, 0) + Stars(Max0(j - 1)) + "." + rest;
    assert |CharAt(first, 0)| + Max0(j - 1) == j;
    var r := fu + "@" + fd;
    forall i | 0 <= i < |email|
      ensures r[i] == (if 0 < i < k - 1 || k + 2 <= i <= k + j then '*' else email[i])
    {
      if i < k {
        assert r[i] == fu[i] && email[i] == u[i];
      } else if i > k {
        assert r[i] == fd[i - k - 1] && email[i] == (first + "." + rest)[i - k - 1];
        if i - k - 1 > j {
          assert fd[i - k - 1] == rest[i - k - 1 - j - 1];
        }
      }
    }
  }

  /** A masked address has its only `@` where the original had it. */
  lemma HideEmailKeepsSingleAt(email: string)
    requires Maskable(email)
    ensures forall i :: 0 <= i < |HideEmail(email)| ==>
              (HideEmail(email)[i] == '@' <==> i == FirstIndex(email, '@'))
  {
    HideEmailMasks(email);
    SingleAtDomain(email);
    OnlyAtIndex(email, FirstIndex(email, '@'));
  }

  lemma OnlyAtIndex(email: string, k: nat)
    requires k < |email| && email[k] == '@' && '@' !in email[..k] && '@' !in email[k + 1..]
    ensures forall i :: 0 <= i < |email| ==> (email[i] == '@' <==> i == k)
  {
    forall i | 0 <= i < |email| && i != k ensures email[i] != '@' {
      if i < k { assert email[i] == email[..k][i]; }
      else { assert email[i] == email[k + 1..][i - k - 1]; }
    }
  }

  /** Every non-empty address that is not maskable comes back unchanged. */
  lemma HideEmailPassThrough(email: string)
    requires email != [] && !Maskable(email)
    ensures HideEmail(email) == email
  {
    if Count(email, '@') == 1 {
      SplitAtSingleAt(email);
      var k := FirstIndex(email, '@');
      var d := email[k + 1..];
      if k >= 2 {
        assert '.' !in d;
        assert |Split(d, '.')| == 1;
      }
    }
  }

  // ---------------------------------------------------------------------------
  // The calling-code prefix and hidePhone

  predicate AllDigits(s: string) {
    forall i :: 0 <= i < |s| ==> IsDigit(s[i])
  }

  /** The end of the run of digits that starts at `i`: the greedy `\d*`. */
  function DigitRunEnd(s: string, i: nat): (r: nat)
    requires i <= |s|
    ensures i <= r <= |s|
    ensures forall k :: i <= k < r ==> IsDigit(s[k])
    ensures r < |s| ==> !IsDigit(s[r])
    decreases |s| - i
  {
    if i < |s| && IsDigit(s[i]) then DigitRunEnd(s, i + 1) else i
  }

  /** `s.replace(/^\+\d+\s*\/, '')`: a `+`, the whole run of digits after it and the whitespace after them are removed. */
  function StripCallingCode(s: string): (r: string)
    ensures |r| <= |s| && r == s[|s| - |r|..]
  {
    if |s| >= 2 && s[0] == '+' && IsDigit(s[1]) then s[SpaceRunEnd(s, DigitRunEnd(s, 1))..] else s
  }

  /**
   * `AllDigits(s[i..j])` and `IsBlank(s[i..j])` stated on positions of `s` itself:
   * the regex-matching proofs below reason about indices of one string, and this
   * form spares them the translation between `s[i..j][k]` and `s[i + k]`.
   */
  ghost predicate DigitsBetween(s: string, i: nat, j: nat)
    requires i <= j <= |s|
  {
    forall k :: i <= k < j ==> IsDigit(s[k])
  }

  ghost predicate SpacesBetween(s: string, i: nat, j: nat)
    requires i <= j <= |s|
  {
    forall k :: i <= k < j ==> IsJsSpace(s[k])
  }

  /** The prefix `s[..n]` is matched in full by `\+\d+\s*`. */
  ghost predicate IsCallingPrefix(s: string, n: nat)
    requires n <= |s|
  {
    && n >= 2 && s[0] == '+'
    && exists d :: 2 <= d <= n && DigitsBetween(s, 1, d) && SpacesBetween(s, d, n)
  }

  /**
   * `StripCallingCode` removes the longest prefix matched by `\+\d+\s*`, and leaves
   * the string alone when no prefix matches.
   */
  lemma StripCallingCodeLongestMatch(s: string)
    ensures var r := StripCallingCode(s);
            && (r == s ==> forall n :: 0 <= n <= |s| ==> !IsCallingPrefix(s, n))
            && (r != s ==> IsCallingPrefix(s, |s| - |r|))
            && (forall n :: |s| - |r| < n <= |s| ==> !IsCallingPrefix(s, n))
  {
    if |s| >= 2 && s[0] == '+' && IsDigit(s[1]) {
      var e := DigitRunEnd(s, 1);
      var t := SpaceRunEnd(s, e);
      assert 2 <= e <= t && DigitsBetween(s, 1, e) && SpacesBetween(s, e, t);
      assert IsCallingPrefix(s, t);
      forall n | t < n <= |s| ensures !IsCallingPrefix(s, n) {
        NotLongerPrefix(s, e, t, n);
      }
    }
  }

  lemma NotLongerPrefix(s: string, e: nat, t: nat, n: nat)
    requires 2 <= e <= t < n <= |s|
    requires forall k :: 1 <= k < e ==> IsDigit(s[k])
    requires !IsDigit(s[e])
    requires forall k :: e <= k < t ==> IsJsSpace(s[k])
    requires !IsJsSpace(s[t])
    ensures !IsCallingPrefix(s, n)
  {
    forall dd | 2 <= dd <= n ensures !(DigitsBetween(s, 1, dd) && SpacesBetween(s, dd, n)) {
      if dd > e {
        assert !DigitsBetween(s, 1, dd) by { assert 1 <= e < dd && !IsDigit(s[e]); }
      } else {
        assert !SpacesBetween(s, dd, n) by { assert dd <= t < n && !IsJsSpace(s[t]); }
      }
    }
  }

  /** `+` followed by at least one digit: the shape of the calling code the page prefixes. */
  predicate IsCallingCode(cc: string) {
    |cc| >= 2 && cc[0] == '+' && AllDigits(cc[1..])
  }

  /** Putting a calling code and a space in front of a national part that does not start with whitespace, then stripping, gives that part back. */
  lemma StripAfterCallingCode(cc: string, national: string)
    requires IsCallingCode(cc)
    requires national == [] || !IsJsSpace(national[0])
    ensures StripCallingCode(cc + " " + national) == national
  {
    var s := cc + " " + national;
    assert s[0] == '+' && s[1] == cc[1];
    assert forall k :: 1 <= k < |cc| ==> s[k] == cc[k];
    DigitRunFrom(s, 1, |cc|);
    assert s[|cc|] == ' ';
    assert |cc| + 1 < |s| ==> s[|cc| + 1] == national[0];
    assert SpaceRunEnd(s, |cc|) == |cc| + 1;
    assert s[|cc| + 1..] == national;
  }

  /** A run of digits from `i` to `j` followed by a non-digit ends at `j`. */
  lemma {:induction false} DigitRunFrom(s: string, i: nat, j: nat)
    requires i <= j < |s|
    requires forall k :: i <= k < j ==> IsDigit(s[k])
    requires !IsDigit(s[j])
    ensures DigitRunEnd(s, i) == j
    decreases j - i
  {
    if i < j {
      DigitRunFrom(s, i + 1, j);
    }
  }

  /** `hidePhone`: six `*` and the last two characters of the number left after the calling code. */
  function HidePhone(phone: string): (r: string)
    ensures |r| == 8
    ensures forall i :: 0 <= i < 6 ==> r[i] == '*'
    ensures var clean := StripCallingCode(phone);
            if phone == [] || |clean| < 2 then r == PhonePlaceholder
            else r[6..] == phone[|phone| - 2..]
  {
    if phone == [] then PhonePlaceholder
    else
      var cleanPhone := StripCallingCode(phone);
      if |cleanPhone| < 2 then PhonePlaceholder
      else Stars(6) + cleanPhone[|cleanPhone| - 2..]
  }

  // ---------------------------------------------------------------------------
  // Worked examples

  /**
   * A stored phone value with the `+1 ` calling code keeps only its last two digits.
   * The value is given by its two parts, bound to literals by the requires, which
   * keeps the proof from unfolding the digit and whitespace scans on a literal string.
   */
  lemma HidePhoneExample(cc: string, national: string)
    requires cc == "+1" && national == "5551234567"
    ensures HidePhone(cc + " " + national) == "******67"
  {
    PhonePartsExample(cc, national);
    StripAfterCallingCode(cc, national);
  }

  /** The parts of `+1 5551234567`: a calling code, and a national part whose masked form ends in `67`. */
  lemma PhonePartsExample(cc: string, national: string)
    requires cc == "+1" && national == "5551234567"
    ensures IsCallingCode(cc) && !IsJsSpace(national[0])
    ensures |national| >= 2 && Stars(6) + national[|national| - 2..] == "******67"
  {
    assert cc[1..] == "1";
    assert national[|national| - 2..] == "67";
  }

  /** The local part `ab` has no interior, so masking keeps it whole. */
  lemma FormatUsernameOfTwo()
    ensures FormatUsername("ab") == "ab"
  {
    assert Stars(0) == [];
  }

  /** The label `domain` is masked to `d*****`. */
  lemma FormatDomainLabelExample()
    ensures CharAt("domain", 0) + Stars(Max0(|"domain"| - 1)) + "." + "com" == "d*****.com"
  {
    assert Stars(5) == "*****";
  }

  /**
   * `ab@domain.com`: a two-character local part has no interior to mask; the label
   * `domain` becomes `d*****`. The address is given by its three parts, bound to
   * literals by the requires, which keeps the proof from unfolding `split` on a
   * literal string.
   */
  lemma HideEmailExample(u: string, first: string, rest: string)
    requires u == "ab" && first == "domain" && rest == "com"
    ensures HideEmail(u + "@" + (first + "." + rest)) == "ab@d*****.com"
  {
    HideEmailOfParts(u, first, rest);
    MaskedPartsExample(u, first, rest);
  }

  /** The masked parts of `ab@domain.com`, put back together. */
  lemma MaskedPartsExample(u: string, first: string, rest: string)
    requires u == "ab" && first == "domain" && rest == "com"
    ensures FormatUsername(u) + "@" + (CharAt(first, 0) + Stars(Max0(|first| - 1)) + "." + rest) == "ab@d*****.com"
  {
    FormatUsernameOfTwo();
    FormatDomainLabelExample();
  }
}
