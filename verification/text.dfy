/**
 * String helpers that stand in for the JavaScript built-ins the core uses:
 * the `\s` character class, `String.prototype.trim`, `Array.prototype.join`
 * and the code-point order that `localeCompare` and the default array sort
 * apply to the strings this application stores.
 */
module Text {
  import opened Sorting

  /** The characters matched by `\s` in an ECMAScript regular expression
      (white space and line terminators); `trim` strips the same set. */
  predicate IsSpace(c: char) {
    || c == ' ' || c == '\t' || c == '\n' || c == '\U{B}' || c == '\U{C}' || c == '\r'
    || c == '\U{A0}' || c == '\U{1680}' || ('\U{2000}' <= c <= '\U{200A}')
    || c == '\U{2028}' || c == '\U{2029}' || c == '\U{202F}' || c == '\U{205F}'
    || c == '\U{3000}' || c == '\U{FEFF}'
  }

  predicate AllSpace(s: string) {
    forall i :: 0 <= i < |s| ==> IsSpace(s[i])
  }

  /** No white space at either end. */
  ghost predicate Trimmed(s: string) {
    s == [] || (!IsSpace(s[0]) && !IsSpace(s[|s| - 1]))
  }

  /** `r` is what is left of `s` between a white-space prefix of length `i`
      and a white-space suffix. */
  ghost predicate Margins(s: string, i: int, r: string) {
    0 <= i && i + |r| <= |s| && r == s[i..i + |r|]
    && AllSpace(s[..i]) && AllSpace(s[i + |r|..])
  }

  /** `s` with its leading white space removed. */
  function TrimStart(s: string): (r: string)
    ensures |r| <= |s| && r == s[|s| - |r|..]
    ensures forall i :: 0 <= i < |s| - |r| ==> IsSpace(s[i])
    ensures r == [] || !IsSpace(r[0])
  {
    if |s| > 0 && IsSpace(s[0]) then
      var r := TrimStart(s[1..]);
      assert forall i :: 1 <= i < |s| - |r| ==> s[i] == s[1..][i - 1];
      r
    else s
  }

  /** `s` with its trailing white space removed. */
  function TrimEnd(s: string): (r: string)
    ensures |r| <= |s| && r == s[..|r|]
    ensures forall i :: |r| <= i < |s| ==> IsSpace(s[i])
    ensures r == [] || !IsSpace(r[|r| - 1])
  {
    if |s| > 0 && IsSpace(s[|s| - 1]) then
      var r := TrimEnd(s[..|s| - 1]);
      assert forall i :: |r| <= i < |s| - 1 ==> s[i] == s[..|s| - 1][i];
      r
    else s
  }

  /** `String.prototype.trim`: the result is the slice of `s` left after
      removing a white-space prefix and a white-space suffix, and it has no
      white space at either end. */
  function Trim(s: string): (r: string)
    ensures Trimmed(r)
    ensures exists i :: Margins(s, i, r)
  {
    var t := TrimStart(s);
    var r := TrimEnd(t);
    TrimSlices(s, |s| - |t|, t, r);
    r
  }

  lemma SpacePrefix(s: string, k: nat)
    requires k <= |s|
    requires forall j :: 0 <= j < k ==> IsSpace(s[j])
    ensures AllSpace(s[..k])
  {
  }

  lemma SpaceSuffix(s: string, t: string, i: nat, n: nat)
    requires i + n <= |s| && t == s[i..]
    requires forall j :: n <= j < |t| ==> IsSpace(t[j])
    ensures AllSpace(s[i + n..])
  {
    assert s[i + n..] == t[n..];
  }

  /** The margins a trimmed slice leaves, from the facts that the two
      passes of `Trim` establish. */
  lemma TrimSlices(s: string, i: nat, t: string, r: string)
    requires i <= |s| && t == s[i..]
    requires forall j :: 0 <= j < i ==> IsSpace(s[j])
    requires |r| <= |t| && r == t[..|r|]
    requires forall j :: |r| <= j < |t| ==> IsSpace(t[j])
    requires t == [] || !IsSpace(t[0])
    requires r == [] || !IsSpace(r[|r| - 1])
    ensures Trimmed(r)
    ensures exists k :: Margins(s, k, r)
  {
    assert r != [] ==> r[0] == t[0];
    SliceOfSlice(s, i, |r|);
    assert r == s[i..i + |r|];
    SpacePrefix(s, i);
    SpaceSuffix(s, t, i, |r|);
    assert Margins(s, i, r);
  }

  lemma SliceOfSlice(s: string, i: nat, n: nat)
    requires i + n <= |s|
    ensures s[i..][..n] == s[i..i + n]
  {
  }

  /** Trimming a trimmed string changes nothing, so `trim` is idempotent. */
  lemma {:induction false} TrimOfTrimmed(s: string)
    requires Trimmed(s)
    ensures Trim(s) == s
  {
    assert TrimStart(s) == s;
    assert TrimEnd(s) == s;
  }

  lemma TrimIdempotent(s: string)
    ensures Trim(Trim(s)) == Trim(s)
  {
    TrimOfTrimmed(Trim(s));
  }

  /** `parts.join(sep)`, built left to right as the JavaScript loop does. */
  function Join(parts: seq<string>, sep: string): string {
    if |parts| == 0 then ""
    else if |parts| == 1 then parts[0]
    else Join(parts[..|parts| - 1], sep) + sep + parts[|parts| - 1]
  }

  /** Code-point lexicographic order: a proper prefix comes first, otherwise
      the first differing character decides. */
  predicate LexBefore(a: string, b: string) {
    if |b| == 0 then false
    else if |a| == 0 then true
    else if a[0] != b[0] then a[0] < b[0]
    else LexBefore(a[1..], b[1..])
  }

  lemma {:induction false} LexIrreflexive(a: string)
    ensures !LexBefore(a, a)
  {
    if |a| > 0 {
      LexIrreflexive(a[1..]);
    }
  }

  /** Any two different strings are ordered one way or the other. */
  lemma {:induction false} LexTotal(a: string, b: string)
    ensures a == b || LexBefore(a, b) || LexBefore(b, a)
  {
    if |a| > 0 && |b| > 0 && a[0] == b[0] {
      LexTotal(a[1..], b[1..]);
      if a[1..] == b[1..] {
        assert a == [a[0]] + a[1..] && b == [b[0]] + b[1..];
      }
    }
  }

  lemma {:induction false} LexAsymmetric(a: string, b: string)
    ensures LexBefore(a, b) ==> !LexBefore(b, a)
  {
    if |a| > 0 && |b| > 0 && a[0] == b[0] {
      LexAsymmetric(a[1..], b[1..]);
    }
  }

  lemma {:induction false} LexTransitive(a: string, b: string, c: string)
    ensures LexBefore(a, b) && LexBefore(b, c) ==> LexBefore(a, c)
  {
    if |a| > 0 && |b| > 0 && |c| > 0 && a[0] == b[0] == c[0] {
      LexTransitive(a[1..], b[1..], c[1..]);
    }
  }

  /** The code-point order is a strict weak order (indeed a strict total
      one), so sorting by it is well defined. */
  lemma LexOrderIsWeak()
    ensures StrictWeakOrder(LexBefore)
  {
    forall a: string, b: string
      ensures LexBefore(a, b) ==> !LexBefore(b, a)
    {
      LexAsymmetric(a, b);
    }
    forall a: string, b: string, c: string
      ensures !LexBefore(a, b) && !LexBefore(b, c) ==> !LexBefore(a, c)
    {
      LexTotal(a, b);
      LexTotal(b, c);
      LexTransitive(c, b, a);
      LexAsymmetric(a, c);
    }
  }
}
