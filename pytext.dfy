/**
 * The part of Python's text handling the collector relies on: `str.strip()`
 * with no argument, which removes leading and trailing whitespace as decided
 * by `str.isspace()`. It is modelled the way the interpreter computes it: one
 * scan forward over the leading whitespace, one scan backward over the
 * trailing whitespace, then the slice between the two positions.
 */
module PyText {

  /** The characters for which `c.isspace()` holds in Python 3: those whose
      bidirectional class is WS, B or S, or whose general category is Zs. */
  const SpaceChars: set<char> := {
    '\t', '\n', '\U{0B}', '\U{0C}', '\r', '\U{1C}', '\U{1D}', '\U{1E}', '\U{1F}', ' ',
    '\U{85}', '\U{A0}', '\U{1680}',
    '\U{2000}', '\U{2001}', '\U{2002}', '\U{2003}', '\U{2004}', '\U{2005}',
    '\U{2006}', '\U{2007}', '\U{2008}', '\U{2009}', '\U{200A}',
    '\U{2028}', '\U{2029}', '\U{202F}', '\U{205F}', '\U{3000}'
  }

  predicate IsSpace(c: char) {
    c in SpaceChars
  }

  /** Every character of `s` at a position in [i, j) is whitespace. */
  predicate SpaceBetween(s: string, i: int, j: int) {
    forall k :: i <= k < j && 0 <= k < |s| ==> IsSpace(s[k])
  }

  predicate AllSpace(s: string) {
    SpaceBetween(s, 0, |s|)
  }

  /** Neither the first nor the last character is whitespace. */
  predicate IsStripped(s: string) {
    s == [] || (!IsSpace(s[0]) && !IsSpace(s[|s| - 1]))
  }

  /** The first position at or after `i` that does not hold whitespace
      (`|s|` if there is none). */
  function SkipSpace(s: string, i: nat): (r: nat)
    requires i <= |s|
    ensures i <= r <= |s|
    ensures SpaceBetween(s, i, r)
    ensures r < |s| ==> !IsSpace(s[r])
    decreases |s| - i
  {
    if i < |s| && IsSpace(s[i]) then SkipSpace(s, i + 1) else i
  }

  /** Scanning backward from `j`, not below `lo`: the end of the last
      non-whitespace character (`lo` if there is none). */
  function SkipSpaceBack(s: string, lo: nat, j: nat): (r: nat)
    requires lo <= j <= |s|
    ensures lo <= r <= j
    ensures SpaceBetween(s, r, j)
    ensures r > lo ==> !IsSpace(s[r - 1])
    decreases j
  {
    if j > lo && IsSpace(s[j - 1]) then SkipSpaceBack(s, lo, j - 1) else j
  }

  /** `s.strip()`. */
  function Strip(s: string): (r: string)
    ensures IsStripped(r)
    ensures r == [] <==> AllSpace(s)
  {
    var a := SkipSpace(s, 0);
    var b := SkipSpaceBack(s, a, |s|);
    assert a < b ==> s[a..b][0] == s[a] && s[a..b][b - a - 1] == s[b - 1];
    s[a..b]
  }

  /** What Strip removes is a whitespace run at each end of `s` and nothing
      else: the result is a slice of `s` with only whitespace around it. */
  lemma StripCuts(s: string)
    ensures exists i, j :: 0 <= i <= j <= |s| && Strip(s) == s[i..j] && AllSpace(s[..i]) && AllSpace(s[j..])
  {
    var a := SkipSpace(s, 0);
    var b := SkipSpaceBack(s, a, |s|);
    forall k | 0 <= k < a ensures IsSpace(s[..a][k]) {
      assert s[..a][k] == s[k];
    }
    forall k | 0 <= k < |s| - b ensures IsSpace(s[b..][k]) {
      assert s[b..][k] == s[b + k];
    }
    assert Strip(s) == s[a..b] && AllSpace(s[..a]) && AllSpace(s[b..]);
  }

  /** `strip` undoes any whitespace padding around a stripped text: together
      with StripCuts this pins its result down completely. */
  lemma StripOfPadded(pre: string, t: string, suf: string)
    requires AllSpace(pre) && AllSpace(suf) && IsStripped(t)
    ensures Strip(pre + t + suf) == t
  {
    var u := pre + t + suf;
    var a := SkipSpace(u, 0);
    var b := SkipSpaceBack(u, a, |u|);
    var e := |pre| + |t|;
    assert forall k :: 0 <= k < |pre| ==> u[k] == pre[k];
    assert forall k :: e <= k < |u| ==> u[k] == suf[k - e];
    if t == [] {
      assert a == |u|;
      assert u[a..b] == [];
    } else {
      assert u[|pre|] == t[0];
      assert u[e - 1] == t[|t| - 1];
      assert a == |pre|;
      assert b == e;
      assert u[a..b] == t;
    }
  }

  /** `strip` leaves an already stripped text alone, so it is idempotent. */
  lemma StripOfStripped(t: string)
    requires IsStripped(t)
    ensures Strip(t) == t
  {
    assert [] + t + [] == t;
    StripOfPadded([], t, []);
  }
}
