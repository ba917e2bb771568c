/**
 * `createNestedMap` (main.go:118-138): every dotted key of the flat properties
 * is split on '.', the walk from the root creates the mappings that are
 * missing, and the last segment is bound to the value.
 */
module Nester {
  import opened Wrappers
  import opened Strings
  import opened Tree

  /** The Go code panics at the type assertion of main.go:132; here the walk fails and names the key. */
  datatype NestError = Conflict(key: string)

  /** `a` followed by a '.' starts `b`: the key `b` lies underneath the key `a`. */
  predicate DotPrefix(a: string, b: string) {
    a + "." <= b
  }

  /** Walking `path` from `t` meets a string before reaching the last segment. */
  ghost predicate Blocked(t: Node, path: seq<string>) {
    exists j :: 1 <= j < |path| && LeafAt(t, path[..j]).Some?
  }

  /**
   * The walk of the inner loop (main.go:125-134) for one key, split into `path`:
   * intermediate segments descend into existing mappings or new empty ones, a
   * string in the way fails, and the last segment is bound to `v`.
   */
  function Insert(es: Entries, path: seq<string>, v: string): Option<Entries>
    requires |path| >= 1
    decreases |path|
  {
    if |path| == 1 then Some(Put(es, path[0], Leaf(v)))
    else
      var found := Find(es, path[0]);
      if found.Some? && found.value.Leaf? then None
      else
        match Insert(ChildFor(es, path[0]), path[1..], v)
        case None => None
        case Some(child') => Some(Put(es, path[0], Branch(child')))
  }

  /** The mapping the walk descends into at the first segment. */
  function ChildFor(es: Entries, k: string): Entries {
    var found := Find(es, k);
    if found.Some? && found.value.Branch? then found.value.entries else []
  }

  /** An empty mapping holds no string. */
  lemma EmptyHasNoLeaf(q: seq<string>)
    ensures LeafAt(Branch([]), q) == None
  {
  }

  /** Below a key that is absent or bound to a mapping, the strings are those of that mapping. */
  lemma LeafAtChild(es: Entries, k: string, r: seq<string>)
    requires Find(es, k).None? || Find(es, k).value.Branch?
    ensures LeafAt(Branch(es), [k] + r) == LeafAt(Branch(ChildFor(es, k)), r)
  {
    assert ([k] + r)[1..] == r;
    if Find(es, k).None? { EmptyHasNoLeaf(r); }
  }

  /** The strings of a mapping after `Put`. */
  lemma LeafAtPut(es: Entries, k: string, n: Node, q: seq<string>)
    ensures LeafAt(Branch(Put(es, k, n)), q) ==
      if q == [] then None else if q[0] == k then LeafAt(n, q[1..]) else LeafAt(Branch(es), q)
  {
    if q != [] {
      var es' := Put(es, k, n);
      if q[0] == k {
        assert Find(es', q[0]) == Some(n);
        assert Lookup(Branch(es'), q) == Lookup(n, q[1..]);
      } else {
        assert Find(es', q[0]) == Find(es, q[0]);
        assert Lookup(Branch(es'), q) == Lookup(Branch(es), q);
      }
    }
  }

  /** A walk fails exactly when a string stands on a proper prefix of the path. */
  lemma {:induction false} InsertFails(es: Entries, path: seq<string>, v: string)
    requires |path| >= 1
    ensures Insert(es, path, v).None? <==> Blocked(Branch(es), path)
    decreases |path|
  {
    if |path| > 1 {
      var k := path[0];
      var rest := path[1..];
      assert path == [k] + path[1..];
      var found := Find(es, k);
      if found.Some? && found.value.Leaf? {
        var q := path[..1];
        assert q[0] == k && q[1..] == [];
        assert Lookup(Branch(es), q) == Lookup(found.value, []);
        assert LeafAt(Branch(es), q).Some?;
      } else {
        var child := ChildFor(es, k);
        InsertFails(child, rest, v);
        forall j | 1 <= j < |path|
          ensures LeafAt(Branch(es), path[..j]) == LeafAt(Branch(child), rest[..j - 1])
        {
          assert path[..j] == [k] + rest[..j - 1];
          LeafAtChild(es, k, rest[..j - 1]);
        }
        if Blocked(Branch(child), rest) {
          var m :| 1 <= m < |rest| && LeafAt(Branch(child), rest[..m]).Some?;
          assert LeafAt(Branch(es), path[..m + 1]).Some?;
        }
        if Blocked(Branch(es), path) {
          var j :| 1 <= j < |path| && LeafAt(Branch(es), path[..j]).Some?;
          assert LeafAt(Branch(child), rest[..j - 1]).Some?;
          assert j - 1 != 0;
        }
      }
    }
  }

  /**
   * A walk that succeeds binds the path to `v`, whatever was there before (a
   * mapping included), drops everything underneath the path, and leaves every
   * other string where it was.
   */
  lemma {:induction false} InsertBinds(es: Entries, path: seq<string>, v: string)
    requires |path| >= 1 && Insert(es, path, v).Some?
    ensures LeafAt(Branch(Insert(es, path, v).value), path) == Some(v)
    ensures forall q :: q != path ==>
      LeafAt(Branch(Insert(es, path, v).value), q) == (if path < q then None else LeafAt(Branch(es), q))
    decreases |path|, 1
  {
    if |path| == 1 {
      PutBinds(es, path[0], v);
      assert path == [path[0]];
    } else {
      DescendBinds(es, path, v);
    }
  }

  /** `InsertBinds` for a walk that goes on below its first segment. */
  lemma {:induction false} DescendBinds(es: Entries, path: seq<string>, v: string)
    requires |path| >= 2 && Insert(es, path, v).Some?
    ensures LeafAt(Branch(Insert(es, path, v).value), path) == Some(v)
    ensures forall q :: q != path ==>
      LeafAt(Branch(Insert(es, path, v).value), q) == (if path < q then None else LeafAt(Branch(es), q))
    decreases |path|, 0
  {
    var k := path[0];
    var rest := path[1..];
    var child := ChildFor(es, k);
    var child' := Insert(child, rest, v).value;
    var es' := Insert(es, path, v).value;
    InsertDescends(es, path, v);
    InsertBinds(child, rest, v);
    LeafAtPut(es, k, Branch(child'), path);
    assert path == [k] + rest;
    forall q | q != path
      ensures LeafAt(Branch(es'), q) == (if path < q then None else LeafAt(Branch(es), q))
    {
      DescendAt(es, k, rest, child', q);
    }
  }

  /** A walk below the first segment goes through an absent key or a mapping, and rebinds that key. */
  lemma InsertDescends(es: Entries, path: seq<string>, v: string)
    requires |path| >= 2 && Insert(es, path, v).Some?
    ensures Find(es, path[0]).None? || Find(es, path[0]).value.Branch?
    ensures Insert(ChildFor(es, path[0]), path[1..], v).Some?
    ensures Insert(es, path, v).value == Put(es, path[0], Branch(Insert(ChildFor(es, path[0]), path[1..], v).value))
  {
  }

  /** The last segment of a walk: the key is bound to the string, and nothing is left under it. */
  lemma PutBinds(es: Entries, k: string, v: string)
    ensures LeafAt(Branch(Put(es, k, Leaf(v))), [k]) == Some(v)
    ensures forall q :: q != [k] ==>
      LeafAt(Branch(Put(es, k, Leaf(v))), q) == (if [k] < q then None else LeafAt(Branch(es), q))
  {
    var es' := Put(es, k, Leaf(v));
    LeafAtPut(es, k, Leaf(v), [k]);
    forall q | q != [k]
      ensures LeafAt(Branch(es'), q) == (if [k] < q then None else LeafAt(Branch(es), q))
    {
      LeafAtPut(es, k, Leaf(v), q);
      if q != [] && q[0] == k {
        assert q[1..] != [];
        assert [k] < q;
      }
    }
  }

  /**
   * An inner segment of a walk, at one path `q` other than the walk's own:
   * what the walk below did to the child is what it does to the mapping.
   */
  lemma DescendAt(es: Entries, k: string, rest: seq<string>, child': Entries, q: seq<string>)
    requires Find(es, k).None? || Find(es, k).value.Branch?
    requires q != [k] + rest
    requires q != [] && q[0] == k && q[1..] != rest ==>
      LeafAt(Branch(child'), q[1..]) == (if rest < q[1..] then None else LeafAt(Branch(ChildFor(es, k)), q[1..]))
    ensures LeafAt(Branch(Put(es, k, Branch(child'))), q) == (if [k] + rest < q then None else LeafAt(Branch(es), q))
  {
    LeafAtPut(es, k, Branch(child'), q);
    if q != [] && q[0] == k {
      var r := q[1..];
      assert q == [k] + r;
      LeafAtChild(es, k, r);
      ConsPrefix(k, rest, r);
    } else {
      NotUnderOther(k, rest, q);
    }
  }

  /** Paths through the same first segment compare as their remainders do. */
  lemma ConsPrefix(k: string, a: seq<string>, b: seq<string>)
    ensures [k] + a < [k] + b <==> a < b
  {
    if [k] + a < [k] + b {
      assert a == ([k] + a)[1..] && b == ([k] + b)[1..];
    }
    if a < b {
      assert [k] + a == ([k] + b)[..|a| + 1];
    }
  }

  /** No path lies under a path with another first segment. */
  lemma NotUnderOther(k: string, rest: seq<string>, q: seq<string>)
    requires q == [] || q[0] != k
    ensures !([k] + rest < q)
  {
    if q != [] {
      assert ([k] + rest)[0] == k != q[0];
    }
  }

  /** A walk keeps keys unique, and adds no dotted key when the path has none. */
  lemma {:induction false} InsertKeepsShape(es: Entries, path: seq<string>, v: string)
    requires |path| >= 1 && Insert(es, path, v).Some?
    ensures WellFormed(Branch(es)) ==> WellFormed(Branch(Insert(es, path, v).value))
    ensures Undotted(Branch(es)) && DotFree(path) ==> Undotted(Branch(Insert(es, path, v).value))
    decreases |path|
  {
    if |path| == 1 {
      PutEntries(es, path[0], Leaf(v));
    } else {
      var found := Find(es, path[0]);
      InsertKeepsShape(ChildFor(es, path[0]), path[1..], v);
      PutEntries(es, path[0], Branch(Insert(ChildFor(es, path[0]), path[1..], v).value));
      if found.Some? {
        var i :| 0 <= i < |es| && es[i] == (path[0], found.value);
      }
    }
  }

  /**
   * A walk never leaves an empty mapping behind: every mapping it creates at
   * main.go:130 receives the rest of the walk. The mapping it returns is occupied.
   */
  lemma {:induction false} InsertNoEmpty(es: Entries, path: seq<string>, v: string)
    requires |path| >= 1 && Insert(es, path, v).Some? && NoEmptyBelow(Branch(es))
    ensures NoEmptyBelow(Branch(Insert(es, path, v).value)) && Insert(es, path, v).value != []
    decreases |path|
  {
    var k := path[0];
    if |path| == 1 {
      PutKeeps(es, k, Leaf(v));
    } else {
      var found := Find(es, k);
      if found.Some? {
        var i :| 0 <= i < |es| && es[i] == (k, found.value);
      }
      var child := ChildFor(es, k);
      InsertNoEmpty(child, path[1..], v);
      PutKeeps(es, k, Branch(Insert(child, path[1..], v).value));
    }
  }

  /**
   * `createNestedMap` on the pairs in the order the Go loop visits them: the
   * first key whose walk fails ends the conversion.
   */
  function Nest(ps: seq<(string, string)>): Result<Entries, NestError>
    decreases |ps|
  {
    if ps == [] then Success([])
    else
      match Nest(ps[..|ps| - 1])
      case Failure(e) => Failure(e)
      case Success(root) =>
        var (k, v) := ps[|ps| - 1];
        match Insert(root, Split(k), v)
        case None => Failure(Conflict(k))
        case Some(root') => Success(root')
  }

  /** The loop of main.go:121-135, one key at a time. */
  method CreateNestedMap(ps: seq<(string, string)>) returns (r: Result<Entries, NestError>)
    ensures r == Nest(ps)
  {
    var root: Entries := [];
    for i := 0 to |ps|
      invariant Nest(ps[..i]) == Success(root)
    {
      assert ps[..i + 1][..i] == ps[..i];
      var (key, value) := ps[i];
      var parts := Split(key);
      var next := Insert(root, parts, value);
      if next.None? {
        NestFailureSticks(ps, i + 1);
        return Failure(Conflict(key));
      }
      root := next.value;
    }
    assert ps[..|ps|] == ps;
    return Success(root);
  }

  /** Once a prefix of the pairs fails to nest, the whole sequence fails the same way. */
  lemma {:induction false} NestFailureSticks(ps: seq<(string, string)>, i: nat)
    requires i <= |ps| && Nest(ps[..i]).Failure?
    ensures Nest(ps) == Nest(ps[..i])
    decreases |ps|
  {
    if i < |ps| {
      var init := ps[..|ps| - 1];
      assert init[..i] == ps[..i];
      NestFailureSticks(init, i);
    } else {
      assert ps[..i] == ps;
    }
  }

  /** Nesting leaves no empty mapping below the root, and the root is empty exactly when there are no pairs. */
  lemma {:induction false} NestNoEmpty(ps: seq<(string, string)>)
    requires Nest(ps).Success?
    ensures NoEmptyBelow(Branch(Nest(ps).value))
    ensures Nest(ps).value == [] <==> ps == []
    decreases |ps|
  {
    if ps != [] {
      var n := |ps| - 1;
      NestLast(ps);
      NestNoEmpty(ps[..n]);
      InsertNoEmpty(Nest(ps[..n]).value, Split(ps[n].0), ps[n].1);
    }
  }

  /** The last pair's walk, when the whole sequence nests. */
  lemma NestLast(ps: seq<(string, string)>)
    requires ps != [] && Nest(ps).Success?
    ensures Nest(ps[..|ps| - 1]).Success?
    ensures Insert(Nest(ps[..|ps| - 1]).value, Split(ps[|ps| - 1].0), ps[|ps| - 1].1) == Some(Nest(ps).value)
  {
  }

  /** Every string in a nested tree was put there by a pair with that path and that value. */
  ghost predicate LeavesFromPairs(t: Node, ps: seq<(string, string)>) {
    forall q :: LeafAt(t, q).Some? ==>
      exists i :: 0 <= i < |ps| && Split(ps[i].0) == q && ps[i].1 == LeafAt(t, q).value
  }

  /** Walking `p` from `t` meets a string, at the last segment or before it. */
  ghost predicate Reaches(t: Node, p: seq<string>) {
    exists m :: 1 <= m <= |p| && LeafAt(t, p[..m]).Some?
  }

  /** Every pair's path meets a string at or above its last segment. */
  ghost predicate PairsReachLeaves(t: Node, ps: seq<(string, string)>) {
    forall i :: 0 <= i < |ps| ==> Reaches(t, Split(ps[i].0))
  }

  /**
   * A nested tree has unique keys, no dotted keys, no empty mapping below the
   * root, and strings that come from the pairs.
   */
  lemma {:induction false} NestShape(ps: seq<(string, string)>)
    requires Nest(ps).Success?
    ensures WellFormed(Branch(Nest(ps).value)) && Undotted(Branch(Nest(ps).value))
    ensures NoEmptyBelow(Branch(Nest(ps).value))
    ensures LeavesFromPairs(Branch(Nest(ps).value), ps)
    decreases |ps|
  {
    NestNoEmpty(ps);
    if ps != [] {
      var n := |ps| - 1;
      var init := ps[..n];
      NestLast(ps);
      NestShape(init);
      var root := Nest(init).value;
      var root' := Nest(ps).value;
      var p := Split(ps[n].0);
      InsertKeepsShape(root, p, ps[n].1);
      InsertBinds(root, p, ps[n].1);
      forall q | LeafAt(Branch(root'), q).Some?
        ensures exists i :: 0 <= i < |ps| && Split(ps[i].0) == q && ps[i].1 == LeafAt(Branch(root'), q).value
      {
        if q == p {
          assert Split(ps[n].0) == q;
        } else {
          assert LeafAt(Branch(root'), q) == LeafAt(Branch(root), q);
          var i :| 0 <= i < n && Split(init[i].0) == q && init[i].1 == LeafAt(Branch(root), q).value;
          assert ps[i] == init[i];
        }
      }
    }
  }

  /** A string met on the way to `pi` is still met after another walk succeeds. */
  lemma ReachAfterInsert(es: Entries, p: seq<string>, v: string, pi: seq<string>)
    requires |p| >= 1 && Insert(es, p, v).Some?
    requires Reaches(Branch(es), pi)
    ensures Reaches(Branch(Insert(es, p, v).value), pi)
  {
    InsertBinds(es, p, v);
    var t' := Branch(Insert(es, p, v).value);
    var m :| 1 <= m <= |pi| && LeafAt(Branch(es), pi[..m]).Some?;
    if p < pi[..m] {
      assert pi[..|p|] == p;
      assert LeafAt(t', pi[..|p|]).Some?;
    } else if pi[..m] != p {
      assert LeafAt(t', pi[..m]).Some?;
    } else {
      assert LeafAt(t', pi[..m]).Some?;
    }
  }

  /** In a nested tree, every pair's path still meets a string at or above its last segment. */
  lemma {:induction false} NestReach(ps: seq<(string, string)>)
    requires Nest(ps).Success?
    ensures PairsReachLeaves(Branch(Nest(ps).value), ps)
    decreases |ps|
  {
    if ps != [] {
      var n := |ps| - 1;
      NestLast(ps);
      NestReach(ps[..n]);
      ReachStep(Nest(ps[..n]).value, Nest(ps).value, ps);
    }
  }

  /** One more successful walk keeps every earlier pair reaching a string, and the new pair reaches its own. */
  lemma ReachStep(root: Entries, root': Entries, ps: seq<(string, string)>)
    requires ps != []
    requires Insert(root, Split(ps[|ps| - 1].0), ps[|ps| - 1].1) == Some(root')
    requires PairsReachLeaves(Branch(root), ps[..|ps| - 1])
    ensures PairsReachLeaves(Branch(root'), ps)
  {
    var n := |ps| - 1;
    var p := Split(ps[n].0);
    var v := ps[n].1;
    forall i | 0 <= i < |ps| ensures Reaches(Branch(root'), Split(ps[i].0)) {
      if i == n {
        InsertBinds(root, p, v);
        assert p[..|p|] == p;
        assert LeafAt(Branch(root'), p[..|p|]).Some?;
      } else {
        assert ps[i] == ps[..n][i];
        ReachAfterInsert(root, p, v, Split(ps[i].0));
      }
    }
  }

  /** A string in the way of `p` was put there by a pair whose path is a proper prefix of `p`. */
  lemma BlockedByEarlierPair(t: Node, ps: seq<(string, string)>, p: seq<string>)
    requires LeavesFromPairs(t, ps) && Blocked(t, p)
    ensures exists i :: 0 <= i < |ps| && Split(ps[i].0) < p
  {
    var j :| 1 <= j < |p| && LeafAt(t, p[..j]).Some?;
    var i :| 0 <= i < |ps| && Split(ps[i].0) == p[..j] && ps[i].1 == LeafAt(t, p[..j]).value;
    assert Split(ps[i].0) < p;
  }

  /** A pair whose path is a proper prefix of `p` leaves a string in the way of `p`. */
  lemma EarlierPairBlocks(t: Node, ps: seq<(string, string)>, i: nat, p: seq<string>)
    requires PairsReachLeaves(t, ps) && i < |ps| && Split(ps[i].0) < p
    ensures Blocked(t, p)
  {
    var pi := Split(ps[i].0);
    assert Reaches(t, pi);
    var m :| 1 <= m <= |pi| && LeafAt(t, pi[..m]).Some?;
    assert pi[..m] == p[..m];
  }

  /** Some pair's path lies strictly under the path of an earlier pair. */
  ghost predicate PathUnderEarlier(ps: seq<(string, string)>) {
    exists i, j :: 0 <= i < j < |ps| && Split(ps[i].0) < Split(ps[j].0)
  }

  /** The same as `NestFails`, over segment paths. */
  lemma {:induction false} NestFailsPaths(ps: seq<(string, string)>)
    ensures Nest(ps).Failure? <==> PathUnderEarlier(ps)
    decreases |ps|
  {
    if ps != [] {
      var init := ps[..|ps| - 1];
      NestFailsPaths(init);
      UnderEarlierLast(ps);
      if Nest(init).Success? {
        NestShape(init);
        NestReach(init);
        FailStep(Nest(init).value, ps);
      }
    }
  }

  /** A path under an earlier one is found among all but the last pair, or it is the last pair's. */
  lemma UnderEarlierLast(ps: seq<(string, string)>)
    requires ps != []
    ensures PathUnderEarlier(ps) <==>
      (PathUnderEarlier(ps[..|ps| - 1]) || exists i :: 0 <= i < |ps| - 1 && Split(ps[i].0) < Split(ps[|ps| - 1].0))
  {
    if PathUnderEarlier(ps) {
      UnderEarlierCases(ps);
    }
    if PathUnderEarlier(ps[..|ps| - 1]) {
      UnderEarlierExtends(ps);
    }
  }

  lemma UnderEarlierCases(ps: seq<(string, string)>)
    requires ps != [] && PathUnderEarlier(ps)
    ensures PathUnderEarlier(ps[..|ps| - 1]) || exists i :: 0 <= i < |ps| - 1 && Split(ps[i].0) < Split(ps[|ps| - 1].0)
  {
    var n := |ps| - 1;
    var i, j :| 0 <= i < j < |ps| && Split(ps[i].0) < Split(ps[j].0);
    if j < n {
      UnderEarlierInInit(ps, i, j);
    } else {
      assert 0 <= i < n && Split(ps[i].0) < Split(ps[n].0);
    }
  }

  /** A pair of keys before the last one witnesses `PathUnderEarlier` for the pairs without the last. */
  lemma UnderEarlierInInit(ps: seq<(string, string)>, i: nat, j: nat)
    requires i < j < |ps| - 1 && Split(ps[i].0) < Split(ps[j].0)
    ensures PathUnderEarlier(ps[..|ps| - 1])
  {
    var init := ps[..|ps| - 1];
    assert init[i].0 == ps[i].0 && init[j].0 == ps[j].0;
    assert Split(init[i].0) < Split(init[j].0);
  }

  lemma UnderEarlierExtends(ps: seq<(string, string)>)
    requires ps != [] && PathUnderEarlier(ps[..|ps| - 1])
    ensures PathUnderEarlier(ps)
  {
    var init := ps[..|ps| - 1];
    var i, j :| 0 <= i < j < |init| && Split(init[i].0) < Split(init[j].0);
    assert init[i] == ps[i] && init[j] == ps[j];
    assert Split(ps[i].0) < Split(ps[j].0);
  }

  /** The walk of the last pair fails exactly when its path lies under an earlier pair's path. */
  lemma FailStep(root: Entries, ps: seq<(string, string)>)
    requires ps != []
    requires LeavesFromPairs(Branch(root), ps[..|ps| - 1]) && PairsReachLeaves(Branch(root), ps[..|ps| - 1])
    ensures Insert(root, Split(ps[|ps| - 1].0), ps[|ps| - 1].1).None? <==>
      exists i :: 0 <= i < |ps| - 1 && Split(ps[i].0) < Split(ps[|ps| - 1].0)
  {
    var n := |ps| - 1;
    InsertFails(root, Split(ps[n].0), ps[n].1);
    if Blocked(Branch(root), Split(ps[n].0)) {
      BlockedByEarlier(root, ps);
    }
    if exists i :: 0 <= i < n && Split(ps[i].0) < Split(ps[n].0) {
      EarlierBlocks(root, ps);
    }
  }

  lemma BlockedByEarlier(root: Entries, ps: seq<(string, string)>)
    requires ps != []
    requires LeavesFromPairs(Branch(root), ps[..|ps| - 1])
    requires Blocked(Branch(root), Split(ps[|ps| - 1].0))
    ensures exists i :: 0 <= i < |ps| - 1 && Split(ps[i].0) < Split(ps[|ps| - 1].0)
  {
    var n := |ps| - 1;
    var init := ps[..n];
    BlockedByEarlierPair(Branch(root), init, Split(ps[n].0));
    var i :| 0 <= i < n && Split(init[i].0) < Split(ps[n].0);
    assert ps[i] == init[i];
  }

  lemma EarlierBlocks(root: Entries, ps: seq<(string, string)>)
    requires ps != []
    requires PairsReachLeaves(Branch(root), ps[..|ps| - 1])
    requires exists i :: 0 <= i < |ps| - 1 && Split(ps[i].0) < Split(ps[|ps| - 1].0)
    ensures Blocked(Branch(root), Split(ps[|ps| - 1].0))
  {
    var n := |ps| - 1;
    var init := ps[..n];
    var i :| 0 <= i < n && Split(ps[i].0) < Split(ps[n].0);
    assert ps[i] == init[i];
    EarlierPairBlocks(Branch(root), init, i, Split(ps[n].0));
  }

  /**
   * Nesting fails (the Go program panics) exactly when some key lies under an
   * earlier key, which by then holds a string: `a=2` visited before `a.b=1`.
   */
  lemma NestFails(ps: seq<(string, string)>)
    ensures Nest(ps).Failure? <==>
      exists i, j :: 0 <= i < j < |ps| && DotPrefix(ps[i].0, ps[j].0)
  {
    NestFailsPaths(ps);
    forall i, j | 0 <= i < |ps| && 0 <= j < |ps|
      ensures Split(ps[i].0) < Split(ps[j].0) <==> DotPrefix(ps[i].0, ps[j].0)
    {
      SplitPrefix(ps[i].0, ps[j].0);
    }
  }

  /** The failure names the first key whose walk met a string; every pair before it nested. */
  lemma {:induction false} NestConflictNamesKey(ps: seq<(string, string)>)
    requires Nest(ps).Failure?
    ensures exists j ::
              && 0 <= j < |ps| && Nest(ps).error == Conflict(ps[j].0) && Nest(ps[..j]).Success?
              && Insert(Nest(ps[..j]).value, Split(ps[j].0), ps[j].1).None?
    decreases |ps|
  {
    var n := |ps| - 1;
    var init := ps[..n];
    if Nest(init).Failure? {
      NestConflictNamesKey(init);
      var j :| 0 <= j < n && Nest(init).error == Conflict(init[j].0) && Nest(init[..j]).Success?
        && Insert(Nest(init[..j]).value, Split(init[j].0), init[j].1).None?;
      assert init[..j] == ps[..j];
      assert init[j] == ps[j];
    } else {
      assert ps[..n] == init;
    }
  }

  /**
   * Walking one more key: the last segment is bound to its value whatever was
   * there before, a mapping included, and every string outside that path stays.
   */
  lemma LastKeyWins(ps: seq<(string, string)>, k: string, v: string)
    requires Nest(ps + [(k, v)]).Success?
    ensures Nest(ps).Success?
    ensures LeafAt(Branch(Nest(ps + [(k, v)]).value), Split(k)) == Some(v)
    ensures forall q :: q != Split(k) && !(Split(k) < q) ==>
      LeafAt(Branch(Nest(ps + [(k, v)]).value), q) == LeafAt(Branch(Nest(ps).value), q)
  {
    NestLast(ps + [(k, v)]);
    assert (ps + [(k, v)])[..|ps|] == ps;
    InsertBinds(Nest(ps).value, Split(k), v);
  }

  /** A key without '.' is bound directly in the root mapping. */
  lemma UndottedKeyAtRoot(ps: seq<(string, string)>, k: string, v: string)
    requires '.' !in k
    requires Nest(ps + [(k, v)]).Success?
    ensures Find(Nest(ps + [(k, v)]).value, k) == Some(Leaf(v))
  {
    LastKeyWins(ps, k, v);
    SplitJoin([k]);
    assert Split(k) == [k];
  }

  predicate DistinctKeys(ps: seq<(string, string)>) {
    forall i, j :: 0 <= i < j < |ps| ==> ps[i].0 != ps[j].0
  }

  /** No key lies under another. */
  predicate PrefixFree(ps: seq<(string, string)>) {
    forall i, j :: 0 <= i < |ps| && 0 <= j < |ps| ==> !DotPrefix(ps[i].0, ps[j].0)
  }

  /** Under `PrefixFree`, the string a pair's path meets is at the end of that path. */
  lemma ReachIsExact(t: Node, ps: seq<(string, string)>, i: nat)
    requires DistinctKeys(ps) && PrefixFree(ps)
    requires LeavesFromPairs(t, ps) && PairsReachLeaves(t, ps) && i < |ps|
    ensures LeafAt(t, Split(ps[i].0)) == Some(ps[i].1)
  {
    var l := MetPair(t, ps, i);
    PathNotUnder(ps, l, i);
    SamePathSameKey(ps, l, i);
  }

  /** The string met on the way to a pair's path was put there by a pair whose path starts that path. */
  lemma MetPair(t: Node, ps: seq<(string, string)>, i: nat) returns (l: nat)
    requires LeavesFromPairs(t, ps) && PairsReachLeaves(t, ps) && i < |ps|
    ensures l < |ps| && Split(ps[l].0) <= Split(ps[i].0)
    ensures LeafAt(t, Split(ps[l].0)) == Some(ps[l].1)
  {
    var pi := Split(ps[i].0);
    assert Reaches(t, pi);
    var m :| 1 <= m <= |pi| && LeafAt(t, pi[..m]).Some?;
    l :| 0 <= l < |ps| && Split(ps[l].0) == pi[..m] && ps[l].1 == LeafAt(t, pi[..m]).value;
  }

  /** Under `PrefixFree`, no pair's path lies strictly under another's. */
  lemma PathNotUnder(ps: seq<(string, string)>, l: nat, i: nat)
    requires PrefixFree(ps) && l < |ps| && i < |ps|
    ensures !(Split(ps[l].0) < Split(ps[i].0))
  {
    SplitPrefix(ps[l].0, ps[i].0);
    assert !DotPrefix(ps[l].0, ps[i].0);
  }

  /** Distinct keys have distinct paths. */
  lemma SamePathSameKey(ps: seq<(string, string)>, l: nat, i: nat)
    requires DistinctKeys(ps) && l < |ps| && i < |ps|
    requires Split(ps[l].0) == Split(ps[i].0)
    ensures l == i
  {
    JoinSplit(ps[l].0);
    JoinSplit(ps[i].0);
    assert ps[l].0 == ps[i].0;
  }

  /**
   * Without keys under other keys, nesting succeeds and the tree holds exactly
   * the pairs: each key's segments lead to its value and to nothing else.
   */
  lemma NestContents(ps: seq<(string, string)>)
    requires DistinctKeys(ps) && PrefixFree(ps)
    ensures Nest(ps).Success?
    ensures forall i :: 0 <= i < |ps| ==> LeafAt(Branch(Nest(ps).value), Split(ps[i].0)) == Some(ps[i].1)
    ensures forall q :: LeafAt(Branch(Nest(ps).value), q).Some? ==> exists i :: 0 <= i < |ps| && Split(ps[i].0) == q
    ensures NoEmptyBelow(Branch(Nest(ps).value))
    ensures Nest(ps).value == [] <==> ps == []
  {
    NestExact(ps);
    NestNoEmpty(ps);
  }

  /** The strings part of `NestContents`. */
  lemma NestExact(ps: seq<(string, string)>)
    requires DistinctKeys(ps) && PrefixFree(ps)
    ensures Nest(ps).Success?
    ensures forall i :: 0 <= i < |ps| ==> LeafAt(Branch(Nest(ps).value), Split(ps[i].0)) == Some(ps[i].1)
    ensures forall q :: LeafAt(Branch(Nest(ps).value), q).Some? ==> exists i :: 0 <= i < |ps| && Split(ps[i].0) == q
  {
    NestFails(ps);
    NestShape(ps);
    NestReach(ps);
    forall i | 0 <= i < |ps| ensures LeafAt(Branch(Nest(ps).value), Split(ps[i].0)) == Some(ps[i].1) {
      ReachIsExact(Branch(Nest(ps).value), ps, i);
    }
  }

  /**
   * Without keys under other keys, the order in which Go visits the pairs does
   * not matter: both orders put the same strings under the same paths and
   * build the same map.
   */
  lemma NestOrderIrrelevant(ps1: seq<(string, string)>, ps2: seq<(string, string)>)
    requires DistinctKeys(ps1) && PrefixFree(ps1)
    requires DistinctKeys(ps2) && PrefixFree(ps2)
    requires forall x :: x in ps1 <==> x in ps2
    ensures Nest(ps1).Success? && Nest(ps2).Success?
    ensures forall q :: LeafAt(Branch(Nest(ps1).value), q) == LeafAt(Branch(Nest(ps2).value), q)
    ensures ToValue(Branch(Nest(ps1).value)) == ToValue(Branch(Nest(ps2).value))
  {
    SameStrings(ps1, ps2);
    SameLeavesSameValue(Branch(Nest(ps1).value), Branch(Nest(ps2).value));
  }

  /** The strings part of `NestOrderIrrelevant`. */
  lemma SameStrings(ps1: seq<(string, string)>, ps2: seq<(string, string)>)
    requires DistinctKeys(ps1) && PrefixFree(ps1)
    requires DistinctKeys(ps2) && PrefixFree(ps2)
    requires forall x :: x in ps1 <==> x in ps2
    ensures Nest(ps1).Success? && Nest(ps2).Success?
    ensures NoEmptyBelow(Branch(Nest(ps1).value)) && NoEmptyBelow(Branch(Nest(ps2).value))
    ensures forall q :: LeafAt(Branch(Nest(ps1).value), q) == LeafAt(Branch(Nest(ps2).value), q)
  {
    NestContents(ps1);
    NestContents(ps2);
    var t1 := Branch(Nest(ps1).value);
    var t2 := Branch(Nest(ps2).value);
    forall q ensures LeafAt(t1, q) == LeafAt(t2, q) {
      if LeafAt(t1, q).Some? {
        var i :| 0 <= i < |ps1| && Split(ps1[i].0) == q;
        assert ps1[i] in ps2;
        var j :| 0 <= j < |ps2| && ps2[j] == ps1[i];
      }
      if LeafAt(t2, q).Some? {
        var j :| 0 <= j < |ps2| && Split(ps2[j].0) == q;
        assert ps2[j] in ps1;
        var i :| 0 <= i < |ps1| && ps1[i] == ps2[j];
      }
    }
  }

  /** `a.b=1` visited before `a=2`: the mapping under `a` is silently replaced by the string. */
  lemma OverwriteExample()
    ensures Nest([("a.b", "1"), ("a", "2")]) == Success([("a", Leaf("2"))])
  {
    SplitJoin(["a", "b"]);
    SplitJoin(["a"]);
    assert Join(["a", "b"]) == "a.b";
    var ps := [("a.b", "1"), ("a", "2")];
    assert ps[..1] == [("a.b", "1")];
    assert ps[..1][..0] == [];
    var root := [("a", Branch([("b", Leaf("1"))]))];
    assert Nest(ps[..1]) == Success(root);
    assert Split("a") == ["a"];
    assert Put(root, "a", Leaf("2")) == [("a", Leaf("2"))];
    assert Insert(root, ["a"], "2") == Some([("a", Leaf("2"))]);
  }

  /** `a=2` visited before `a.b=1`: the walk meets the string and the conversion fails on `a.b`. */
  lemma ConflictExample()
    ensures Nest([("a", "2"), ("a.b", "1")]) == Failure(Conflict("a.b"))
  {
    SplitJoin(["a", "b"]);
    SplitJoin(["a"]);
    assert Join(["a", "b"]) == "a.b";
    var ps := [("a", "2"), ("a.b", "1")];
    assert ps[..1] == [("a", "2")];
    assert ps[..1][..0] == [];
    assert Nest(ps[..1]) == Success([("a", Leaf("2"))]);
  }
}
