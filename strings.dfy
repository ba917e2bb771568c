/**
 * The few operations of Go's `strings` package that the converter relies on,
 * over strings taken as sequences of Unicode code points.
 */
module Strings {
  import opened Wrappers

  /** Go's `unicode.IsSpace`: the Latin-1 spaces and Unicode's White_Space property. */
  predicate IsSpace(c: char) {
    c == ' ' || c == '\t' || c == '\n' || c == '\U{000B}' || c == '\U{000C}' || c == '\r'
    || c == '\U{0085}' || c == '\U{00A0}' || c == '\U{1680}'
    || ('\U{2000}' <= c <= '\U{200A}')
    || c == '\U{2028}' || c == '\U{2029}' || c == '\U{202F}' || c == '\U{205F}' || c == '\U{3000}'
  }

  /** Neither end of `s` is a space. */
  predicate Trimmed(s: string) {
    s == [] || (!IsSpace(s[0]) && !IsSpace(s[|s| - 1]))
  }

  /** The index of the first non-space at or after `i`, or `|s|`. */
  function SkipSpaces(s: string, i: nat): (j: nat)
    requires i <= |s|
    ensures i <= j <= |s|
    ensures forall m :: i <= m < j ==> IsSpace(s[m])
    ensures j == |s| || !IsSpace(s[j])
    decreases |s| - i
  {
    if i == |s| || !IsSpace(s[i]) then i else SkipSpaces(s, i + 1)
  }

  /** The index just after the last non-space of `s[lo..j]`, or `lo`. */
  function SkipSpacesBack(s: string, lo: nat, j: nat): (e: nat)
    requires lo <= j <= |s|
    ensures lo <= e <= j
    ensures forall m :: e <= m < j ==> IsSpace(s[m])
    ensures e == lo || !IsSpace(s[e - 1])
    decreases j
  {
    if j == lo || !IsSpace(s[j - 1]) then j else SkipSpacesBack(s, lo, j - 1)
  }

  /** Go's `strings.TrimSpace`: the spaces at both ends are dropped. */
  function TrimSpace(s: string): (r: string)
    ensures Trimmed(r)
    ensures Trimmed(s) ==> r == s
    ensures r == [] <==> forall i :: 0 <= i < |s| ==> IsSpace(s[i])
    ensures exists i, e ::
              && 0 <= i <= e <= |s| && r == s[i..e]
              && (forall m :: 0 <= m < i ==> IsSpace(s[m]))
              && (forall m :: e <= m < |s| ==> IsSpace(s[m]))
  {
    var i := SkipSpaces(s, 0);
    var e := SkipSpacesBack(s, i, |s|);
    s[i..e]
  }

  /** Go's `strings.HasSuffix`. */
  predicate HasSuffix(s: string, suffix: string) {
    |suffix| <= |s| && s[|s| - |suffix|..] == suffix
  }

  /** `pat` occurs in `s` starting at index `i`. */
  predicate OccursAt(s: string, pat: string, i: int) {
    0 <= i && i + |pat| <= |s| && s[i..i + |pat|] == pat
  }

  ghost predicate Contains(s: string, pat: string) {
    exists i :: OccursAt(s, pat, i)
  }

  /** The first index at or after `from` where `pat` occurs. */
  function IndexFrom(s: string, pat: string, from: nat): (r: Option<nat>)
    ensures r.Some? ==> from <= r.value && OccursAt(s, pat, r.value)
    ensures r.Some? ==> forall j :: from <= j < r.value ==> !OccursAt(s, pat, j)
    ensures r.None? ==> forall j :: from <= j ==> !OccursAt(s, pat, j)
    decreases |s| - from
  {
    if from + |pat| > |s| then None
    else if s[from..from + |pat|] == pat then Some(from)
    else IndexFrom(s, pat, from + 1)
  }

  /** Go's `strings.Index`, with `None` for its -1. */
  function IndexOf(s: string, pat: string): (r: Option<nat>)
    ensures r.Some? ==> OccursAt(s, pat, r.value) && forall j :: 0 <= j < r.value ==> !OccursAt(s, pat, j)
    ensures r.None? <==> !Contains(s, pat)
  {
    IndexFrom(s, pat, 0)
  }

  /** The first occurrence of `pat` in `s` is at `i`. */
  lemma IndexOfAt(s: string, pat: string, i: nat)
    requires OccursAt(s, pat, i)
    requires forall j :: 0 <= j < i ==> !OccursAt(s, pat, j)
    ensures IndexOf(s, pat) == Some(i)
  {
    assert Contains(s, pat);
  }

  /** Go's `strings.Replace(s, old, new, 1)`: only the FIRST occurrence is replaced. */
  function ReplaceFirst(s: string, target: string, replacement: string): (r: string)
    ensures !Contains(s, target) ==> r == s
    ensures forall i :: (OccursAt(s, target, i) && (forall j :: 0 <= j < i ==> !OccursAt(s, target, j))
                         ==> r == s[..i] + replacement + s[i + |target|..])
  {
    match IndexOf(s, target)
    case None => s
    case Some(i) => s[..i] + replacement + s[i + |target|..]
  }

  /** What `IndexOf` says about a one-character pattern: its first occurrence, or none at all. */
  lemma CharIndex(s: string, c: char)
    ensures IndexOf(s, [c]).None? ==> c !in s
    ensures IndexOf(s, [c]).Some? ==> var i := IndexOf(s, [c]).value;
      i < |s| && s[i] == c && c !in s[..i]
  {
    forall j | 0 <= j < |s| ensures s[j..j + 1] == [s[j]] { }
    match IndexOf(s, [c])
    case None =>
      forall j | 0 <= j < |s| ensures s[j] != c {
        assert !OccursAt(s, [c], j);
      }
    case Some(i) =>
      forall j | 0 <= j < i ensures s[..i][j] != c {
        assert !OccursAt(s, [c], j);
      }
  }

  /** What `IndexOf(s, ".")` says about the dots of `s`. */
  lemma DotIndex(s: string)
    ensures IndexOf(s, ".").None? ==> '.' !in s
    ensures IndexOf(s, ".").Some? ==> var i := IndexOf(s, ".").value;
      i < |s| && s[i] == '.' && '.' !in s[..i]
  {
    CharIndex(s, '.');
  }

  /** Go's `strings.Split(s, ".")`. */
  function Split(s: string): (parts: seq<string>)
    ensures |parts| >= 1
    ensures DotFree(parts)
    decreases |s|
  {
    DotIndex(s);
    match IndexOf(s, ".")
    case None => [s]
    case Some(i) => [s[..i]] + Split(s[i + 1..])
  }

  /** Joins segments with ".", the inverse of `Split`. */
  function Join(parts: seq<string>): string {
    if |parts| <= 1 then (if parts == [] then "" else parts[0])
    else parts[0] + "." + Join(parts[1..])
  }

  predicate DotFree(parts: seq<string>) {
    forall i :: 0 <= i < |parts| ==> '.' !in parts[i]
  }

  /** Where a string without '.' meets a ".", the first '.' is right after it. */
  lemma FirstDot(a: string, b: string)
    requires '.' !in a
    ensures IndexOf(a + "." + b, ".") == Some(|a|)
  {
    var s := a + "." + b;
    assert s[|a|..|a| + 1] == ".";
    forall j | 0 <= j < |a| ensures !OccursAt(s, ".", j) {
      assert s[j] == a[j];
      assert s[j..j + 1] == [s[j]];
    }
    IndexOfAt(s, ".", |a|);
  }

  lemma {:induction false} JoinSplit(s: string)
    ensures Join(Split(s)) == s
    decreases |s|
  {
    if IndexOf(s, ".").Some? {
      var i := IndexOf(s, ".").value;
      SplitAtDot(s, i);
      JoinSplit(s[i + 1..]);
      JoinCons(s[..i], Split(s[i + 1..]));
      assert s == s[..i] + "." + s[i + 1..];
    }
  }

  /** `Split` cuts at the first '.'. */
  lemma SplitAtDot(s: string, i: nat)
    requires IndexOf(s, ".") == Some(i)
    ensures i < |s| && Split(s) == [s[..i]] + Split(s[i + 1..])
  {
  }

  lemma JoinCons(a: string, t: seq<string>)
    requires |t| >= 1
    ensures Join([a] + t) == a + "." + Join(t)
  {
    assert ([a] + t)[1..] == t;
  }

  lemma {:induction false} SplitJoin(parts: seq<string>)
    requires |parts| >= 1 && DotFree(parts)
    ensures Split(Join(parts)) == parts
  {
    if |parts| == 1 {
      var s := parts[0];
      forall j | 0 <= j < |s| ensures !OccursAt(s, ".", j) {
        assert s[j..j + 1] == [s[j]];
      }
      assert IndexOf(s, ".").None?;
    } else {
      var s := Join(parts);
      var tail := Join(parts[1..]);
      assert s == parts[0] + "." + tail;
      FirstDot(parts[0], tail);
      assert s[..|parts[0]|] == parts[0];
      assert s[|parts[0]| + 1..] == tail;
      assert Split(s) == [parts[0]] + Split(tail);
      SplitJoin(parts[1..]);
    }
  }

  /** Two dot-free non-empty segment lists with the same join are equal. */
  lemma JoinInjective(p: seq<string>, q: seq<string>)
    requires |p| >= 1 && DotFree(p) && |q| >= 1 && DotFree(q)
    requires Join(p) == Join(q)
    ensures p == q
  {
    SplitJoin(p);
    SplitJoin(q);
  }

  lemma {:induction false} JoinAppend(p: seq<string>, q: seq<string>)
    requires |p| >= 1 && |q| >= 1
    ensures Join(p + q) == Join(p) + "." + Join(q)
  {
    if |p| == 1 {
      assert (p + q)[1..] == q;
    } else {
      JoinAppend(p[1..], q);
      assert (p + q)[1..] == p[1..] + q;
    }
  }

  lemma {:induction false} SplitAppend(a: string, b: string)
    ensures Split(a + "." + b) == Split(a) + Split(b)
    decreases |a|
  {
    var s := a + "." + b;
    DotIndex(a);
    match IndexOf(a, ".")
    case None =>
      FirstDot(a, b);
      assert s[..|a|] == a;
      assert s[|a| + 1..] == b;
    case Some(i) =>
      var rest := a[i + 1..] + "." + b;
      assert s == a[..i] + "." + rest;
      FirstDot(a[..i], rest);
      assert s[..i] == a[..i];
      assert s[i + 1..] == rest;
      SplitAppend(a[i + 1..], b);
  }

  /**
   * The segments of `a` are a proper prefix of the segments of `b` exactly when
   * `a` followed by "." is a prefix of `b`.
   */
  lemma SplitPrefix(a: string, b: string)
    ensures Split(a) < Split(b) <==> a + "." <= b
  {
    if a + "." <= b {
      DottedPrefixSplits(a, b);
    }
    if Split(a) < Split(b) {
      SplitsPrefixDotted(a, b);
    }
  }

  lemma DottedPrefixSplits(a: string, b: string)
    requires a + "." <= b
    ensures Split(a) < Split(b)
  {
    var t := b[|a| + 1..];
    assert b == a + "." + t;
    SplitAppend(a, t);
  }

  lemma SplitsPrefixDotted(a: string, b: string)
    requires Split(a) < Split(b)
    ensures a + "." <= b
  {
    var rest := Split(b)[|Split(a)|..];
    assert Split(b) == Split(a) + rest;
    JoinAppend(Split(a), rest);
    JoinSplit(a);
    JoinSplit(b);
    assert b == a + "." + Join(rest);
  }
}
