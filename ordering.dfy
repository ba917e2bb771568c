/**
 * The order `sort.Strings` puts keys in (main.go:205): Go compares strings
 * byte by byte, which on UTF-8 is the order of their code points.
 */
module Ordering {

  /** `a` sorts strictly before `b`. */
  predicate Less(a: string, b: string)
    decreases |a|
  {
    if a == [] then b != []
    else b != [] && (a[0] < b[0] || (a[0] == b[0] && Less(a[1..], b[1..])))
  }

  lemma {:induction false} LessIrreflexive(a: string)
    ensures !Less(a, a)
    decreases |a|
  {
    if a != [] {
      LessIrreflexive(a[1..]);
    }
  }

  lemma {:induction false} LessTransitive(a: string, b: string, c: string)
    requires Less(a, b) && Less(b, c)
    ensures Less(a, c)
    decreases |a|
  {
    if a != [] && a[0] == b[0] && b[0] == c[0] {
      LessTransitive(a[1..], b[1..], c[1..]);
    }
  }

  /** Any two different strings are ordered one way or the other. */
  lemma {:induction false} LessTotal(a: string, b: string)
    ensures a == b || Less(a, b) || Less(b, a)
    decreases |a|
  {
    if a != [] && b != [] && a[0] == b[0] {
      LessTotal(a[1..], b[1..]);
      if a[1..] == b[1..] {
        assert a == [a[0]] + a[1..] && b == [b[0]] + b[1..];
      }
    }
  }

  lemma {:induction false} LessAsymmetric(a: string, b: string)
    ensures !(Less(a, b) && Less(b, a))
    decreases |a|
  {
    if a != [] && b != [] && a[0] == b[0] {
      LessAsymmetric(a[1..], b[1..]);
    }
  }

  /** In order, equal neighbours allowed: what `sort.Strings` promises. */
  predicate Sorted(s: seq<string>) {
    forall i, j :: 0 <= i < j < |s| ==> !Less(s[j], s[i])
  }

  /** In strictly ascending order, hence without repetitions. */
  predicate StrictlySorted(s: seq<string>) {
    forall i, j :: 0 <= i < j < |s| ==> Less(s[i], s[j])
  }

  predicate NoDuplicates(s: seq<string>) {
    forall i, j :: 0 <= i < j < |s| ==> s[i] != s[j]
  }

  /**
   * `sort.Strings`, as an insertion sort: every key is inserted after the keys
   * that do not sort after it.
   */
  method SortStrings(keys: seq<string>) returns (sorted: seq<string>)
    ensures Sorted(sorted) && multiset(sorted) == multiset(keys)
    ensures NoDuplicates(keys) ==> StrictlySorted(sorted)
  {
    sorted := [];
    for i := 0 to |keys|
      invariant Sorted(sorted) && multiset(sorted) == multiset(keys[..i])
      invariant NoDuplicates(keys) ==> StrictlySorted(sorted)
    {
      var j := InsertionPoint(sorted, keys[i]);
      InsertStep(keys, i, sorted, j);
      sorted := sorted[..j] + [keys[i]] + sorted[j..];
    }
    assert keys[..|keys|] == keys;
  }

  /** The position after every element that `k` does not sort before. */
  method InsertionPoint(s: seq<string>, k: string) returns (j: nat)
    requires Sorted(s)
    ensures j <= |s|
    ensures forall m :: 0 <= m < j ==> !Less(k, s[m])
    ensures j < |s| ==> Less(k, s[j])
  {
    j := 0;
    while j < |s| && !Less(k, s[j])
      invariant 0 <= j <= |s|
      invariant forall m :: 0 <= m < j ==> !Less(k, s[m])
    {
      j := j + 1;
    }
  }

  /** One round of the insertion sort keeps its invariants. */
  lemma InsertStep(keys: seq<string>, i: nat, s: seq<string>, j: nat)
    requires i < |keys| && j <= |s|
    requires Sorted(s) && multiset(s) == multiset(keys[..i])
    requires NoDuplicates(keys) ==> StrictlySorted(s)
    requires forall m :: 0 <= m < j ==> !Less(keys[i], s[m])
    requires j < |s| ==> Less(keys[i], s[j])
    ensures Sorted(s[..j] + [keys[i]] + s[j..])
    ensures multiset(s[..j] + [keys[i]] + s[j..]) == multiset(keys[..i + 1])
    ensures NoDuplicates(keys) ==> StrictlySorted(s[..j] + [keys[i]] + s[j..])
  {
    InsertKeepsOrder(s, keys[i], j);
    InsertCounts(keys, i, s, j);
    if NoDuplicates(keys) {
      NotYetInserted(keys, i, s);
      InsertKeepsStrictOrder(s, keys[i], j);
    }
  }

  /** The inserted sequence holds one more copy of the key taken next. */
  lemma InsertCounts(keys: seq<string>, i: nat, s: seq<string>, j: nat)
    requires i < |keys| && j <= |s| && multiset(s) == multiset(keys[..i])
    ensures multiset(s[..j] + [keys[i]] + s[j..]) == multiset(keys[..i + 1])
  {
    assert keys[..i + 1] == keys[..i] + [keys[i]];
    assert s == s[..j] + s[j..];
  }

  /** Without repetitions, the key taken next is not among those already sorted. */
  lemma NotYetInserted(keys: seq<string>, i: nat, s: seq<string>)
    requires i < |keys| && NoDuplicates(keys) && multiset(s) == multiset(keys[..i])
    ensures keys[i] !in s
  {
    assert keys[i] !in keys[..i];
    assert keys[i] !in multiset(keys[..i]);
  }

  /** Inserting `k` after every element it does not sort before keeps a sorted sequence sorted. */
  lemma InsertKeepsOrder(s: seq<string>, k: string, j: nat)
    requires Sorted(s) && j <= |s|
    requires forall m :: 0 <= m < j ==> !Less(k, s[m])
    requires j < |s| ==> Less(k, s[j])
    ensures Sorted(s[..j] + [k] + s[j..])
  {
    var t := s[..j] + [k] + s[j..];
    forall a, b | 0 <= a < b < |t| ensures !Less(t[b], t[a]) {
      if b == j {
        assert t[a] == s[a];
      } else if a == j {
        assert t[b] == s[b - 1];
        LessTotal(s[j], s[b - 1]);
        if s[j] != s[b - 1] {
          LessTransitive(k, s[j], s[b - 1]);
        }
        LessAsymmetric(k, s[b - 1]);
      }
    }
  }

  /** The same with strict order, for a `k` not already present. */
  lemma InsertKeepsStrictOrder(s: seq<string>, k: string, j: nat)
    requires StrictlySorted(s) && j <= |s| && k !in s
    requires forall m :: 0 <= m < j ==> !Less(k, s[m])
    requires j < |s| ==> Less(k, s[j])
    ensures StrictlySorted(s[..j] + [k] + s[j..])
  {
    var t := s[..j] + [k] + s[j..];
    forall a, b | 0 <= a < b < |t| ensures Less(t[a], t[b]) {
      if b == j {
        assert t[a] == s[a];
        LessTotal(k, s[a]);
      } else if a == j {
        assert t[b] == s[b - 1];
        if b - 1 != j {
          LessTransitive(k, s[j], s[b - 1]);
        }
      }
    }
  }

  /** Every finite set of strings has a least element. */
  lemma {:induction false} MinimumExists(s: set<string>)
    requires s != {}
    ensures exists m :: m in s && forall x :: x in s ==> !Less(x, m)
    decreases s
  {
    var y :| y in s;
    if s == {y} {
      LessIrreflexive(y);
      assert forall x :: x in s ==> x == y;
    } else {
      MinimumExists(s - {y});
      var m :| m in s - {y} && forall x :: x in s - {y} ==> !Less(x, m);
      if Less(y, m) {
        forall x | x in s ensures !Less(x, y) {
          LessIrreflexive(y);
          if x != y && Less(x, y) {
            LessTransitive(x, y, m);
          }
        }
      } else {
        assert forall x :: x in s ==> !Less(x, m);
      }
    }
  }

  /** The keys of `s` in ascending order: the one sequence `sort.Strings` can produce from them. */
  ghost function SortedKeys(s: set<string>): (r: seq<string>)
    ensures StrictlySorted(r)
    ensures forall x :: x in r <==> x in s
    decreases s
  {
    if s == {} then []
    else
      MinimumExists(s);
      var m :| m in s && forall x :: x in s ==> !Less(x, m);
      var rest := SortedKeys(s - {m});
      assert forall x :: x in rest ==> Less(m, x) by {
        forall x | x in rest ensures Less(m, x) {
          LessTotal(m, x);
        }
      }
      [m] + rest
  }

  /** The first element of a strictly sorted sequence sorts before all the others. */
  lemma FirstIsLeast(a: seq<string>)
    requires StrictlySorted(a) && a != []
    ensures forall x :: x in a ==> x == a[0] || Less(a[0], x)
  {
  }

  /** Two strictly sorted sequences with the same elements are the same sequence. */
  lemma {:induction false} StrictlySortedUnique(a: seq<string>, b: seq<string>)
    requires StrictlySorted(a) && StrictlySorted(b)
    requires forall x :: x in a <==> x in b
    ensures a == b
    decreases |a|
  {
    assert |a| == 0 || a[0] in a;
    assert |b| == 0 || b[0] in b;
    if a != [] && b != [] {
      FirstIsLeast(a);
      FirstIsLeast(b);
      LessAsymmetric(a[0], b[0]);
      assert a[0] == b[0];
      forall x ensures x in a[1..] <==> x in b[1..] {
        LessIrreflexive(a[0]);
        assert x in a[1..] <==> x in a && x != a[0];
        assert x in b[1..] <==> x in b && x != b[0];
      }
      StrictlySortedUnique(a[1..], b[1..]);
      assert a == [a[0]] + a[1..] && b == [b[0]] + b[1..];
    }
  }
}
