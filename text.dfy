/** The small optional-value wrapper used by the string helpers and the translation batches. */
module Wrappers {
  datatype Option<T> = None | Some(value: T)
}

/**
 * The JavaScript string primitives the page relies on, stated over `seq<char>`:
 * the whitespace class of `\s` and `trim`, `split` and `join` with a one-character
 * separator, and `'*'.repeat(n)`. `IndexOf` is a helper that `Split` is built on;
 * the page itself never calls `indexOf`.
 */
module Text {
  import opened Wrappers

  /**
   * The characters matched by `\s` in a JavaScript regular expression; `trim`
   * removes the same set: the ASCII whitespace, no-break space, the byte-order
   * mark, the line and paragraph separators and the Unicode space separators.
   */
  predicate IsJsSpace(c: char) {
    || c == ' ' || c == '\t' || c == '\n' || c == '\r' || c == '\U{000B}' || c == '\U{000C}'
    || c == '\U{00A0}' || c == '\U{1680}' || ('\U{2000}' <= c <= '\U{200A}')
    || c == '\U{2028}' || c == '\U{2029}' || c == '\U{202F}' || c == '\U{205F}'
    || c == '\U{3000}' || c == '\U{FEFF}'
  }

  /** `\d` in a JavaScript regular expression: the ASCII digits only. */
  predicate IsDigit(c: char) {
    '0' <= c <= '9'
  }

  ghost predicate IsBlank(s: string) {
    forall i :: 0 <= i < |s| ==> IsJsSpace(s[i])
  }

  /** `'*'.repeat(n)` */
  function Stars(n: nat): (r: string)
    ensures |r| == n && forall i :: 0 <= i < n ==> r[i] == '*'
  {
    seq(n, _ => '*')
  }

  /** `s.indexOf(c)`, with -1 as `None`. */
  function IndexOf(s: string, c: char): (r: Option<nat>)
    ensures r.None? <==> c !in s
    ensures r.Some? ==> r.value < |s| && s[r.value] == c && c !in s[..r.value]
  {
    if s == [] then None
    else if s[0] == c then Some(0)
    else match IndexOf(s[1..], c)
      case None => None
      case Some(k) => assert s[1..][..k] == s[1..k + 1]; Some(k + 1)
  }

  /** The number of occurrences of `c` in `s`. */
  function Count(s: string, c: char): nat {
    if s == [] then 0 else (if s[0] == c then 1 else 0) + Count(s[1..], c)
  }

  lemma {:induction false} CountAppend(a: string, b: string, c: char)
    ensures Count(a + b, c) == Count(a, c) + Count(b, c)
  {
    if a != [] {
      assert (a + b)[1..] == a[1..] + b;
      CountAppend(a[1..], b, c);
    } else {
      assert a + b == b;
    }
  }

  lemma {:induction false} CountZero(s: string, c: char)
    ensures Count(s, c) == 0 <==> c !in s
  {
    if s != [] {
      CountZero(s[1..], c);
      assert s == [s[0]] + s[1..];
    }
  }

  /** A separator between two parts adds one to their counts. */
  lemma CountAround(a: string, c: char, b: string)
    ensures Count(a + [c] + b, c) == Count(a, c) + 1 + Count(b, c)
  {
    CountAppend(a + [c], b, c);
    CountAppend(a, [c], c);
    assert [c][1..] == [];
  }

  /** A string with a single separator between two separator-free parts holds it once. */
  lemma CountSingle(a: string, c: char, b: string)
    requires c !in a && c !in b
    ensures Count(a + [c] + b, c) == 1
  {
    CountAround(a, c, b);
    CountZero(a, c);
    CountZero(b, c);
  }

  /** `s.split(c)` for a one-character separator: the empty string splits into `[""]`. */
  function Split(s: string, c: char): (parts: seq<string>)
    ensures |parts| == Count(s, c) + 1
    ensures forall i :: 0 <= i < |parts| ==> c !in parts[i]
    decreases |s|
  {
    match IndexOf(s, c)
    case None => CountZero(s, c); [s]
    case Some(k) =>
      assert s == s[..k] + ([c] + s[k + 1..]);
      CountAppend(s[..k], [c] + s[k + 1..], c);
      CountZero(s[..k], c);
      assert Count([c] + s[k + 1..], c) == 1 + Count(s[k + 1..], c);
      [s[..k]] + Split(s[k + 1..], c)
  }

  /** `parts.join(c)`: the empty list joins to the empty string. */
  function Join(parts: seq<string>, c: char): string {
    if parts == [] then []
    else if |parts| == 1 then parts[0]
    else parts[0] + [c] + Join(parts[1..], c)
  }

  /** Joining what `split` produced gives the string back. */
  lemma {:induction false} JoinSplit(s: string, c: char)
    ensures Join(Split(s, c), c) == s
    decreases |s|
  {
    match IndexOf(s, c)
    case None =>
    case Some(k) =>
      JoinSplit(s[k + 1..], c);
      assert s == s[..k] + [c] + s[k + 1..];
  }

  /** A string cut at its first separator splits into the part before it and the split of the rest. */
  lemma SplitAtFirst(a: string, c: char, b: string)
    requires c !in a
    ensures Split(a + [c] + b, c) == [a] + Split(b, c)
  {
    var s := a + [c] + b;
    assert s[|a|] == c && s[..|a|] == a;
    var k := IndexOf(s, c).value;
    assert s[k + 1..] == b;
  }

  /** The end of the run of whitespace that starts at `i`: the greedy `\s*`. */
  function SpaceRunEnd(s: string, i: nat): (r: nat)
    requires i <= |s|
    ensures i <= r <= |s|
    ensures forall k :: i <= k < r ==> IsJsSpace(s[k])
    ensures r < |s| ==> !IsJsSpace(s[r])
    decreases |s| - i
  {
    if i < |s| && IsJsSpace(s[i]) then SpaceRunEnd(s, i + 1) else i
  }

  /** The start of the run of whitespace that ends at `j`. */
  function SpaceRunStart(s: string, j: nat): (r: nat)
    requires j <= |s|
    ensures r <= j
    ensures forall k :: r <= k < j ==> IsJsSpace(s[k])
    ensures 0 < r ==> !IsJsSpace(s[r - 1])
  {
    if 0 < j && IsJsSpace(s[j - 1]) then SpaceRunStart(s, j - 1) else j
  }

  /** `s.trim()`: the leading and the trailing whitespace removed. */
  function Trim(s: string): string {
    var start := SpaceRunEnd(s, 0);
    if start == |s| then [] else s[start..SpaceRunStart(s, |s|)]
  }

  /** What `trim` keeps is a slice of `s` that neither starts nor ends with whitespace; what it drops is whitespace. */
  lemma TrimKeepsInner(s: string)
    ensures Trim(s) == [] || (!IsJsSpace(Trim(s)[0]) && !IsJsSpace(Trim(s)[|Trim(s)| - 1]))
    ensures exists a, b :: TrimmedAt(s, a, b)
  {
    var a := SpaceRunEnd(s, 0);
    if a == |s| {
      assert TrimmedAt(s, a, a);
    } else {
      var b := SpaceRunStart(s, |s|);
      assert TrimmedAt(s, a, b);
    }
  }

  /** `s[a..b]` is `Trim(s)`, and every character outside it is whitespace. */
  ghost predicate TrimmedAt(s: string, a: nat, b: nat) {
    && a <= b <= |s|
    && Trim(s) == s[a..b]
    && (forall k :: 0 <= k < a ==> IsJsSpace(s[k]))
    && (forall k :: b <= k < |s| ==> IsJsSpace(s[k]))
  }

  /** `s.trim() === ''` holds exactly when every character of `s` is whitespace. */
  lemma TrimEmptyIffBlank(s: string)
    ensures Trim(s) == [] <==> IsBlank(s)
  {
    var start := SpaceRunEnd(s, 0);
    if start < |s| {
      assert !IsJsSpace(s[start]);
      assert Trim(s)[0] == s[start];
    }
  }
}
