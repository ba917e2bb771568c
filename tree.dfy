/**
 * The nested document that the YAML side of the converter works on: a mapping
 * whose values are strings or further mappings (Go's `map[string]interface{}`).
 * A mapping is kept as the sequence of its entries in the order a Go `range`
 * loop happens to visit them.
 */
module Tree {
  import opened Wrappers

  datatype Node = Leaf(value: string) | Branch(entries: seq<(string, Node)>)

  type Entries = seq<(string, Node)>

  /** The value bound to `k`: Go's `m[k]` with its `ok` flag. */
  function Find(es: Entries, k: string): (r: Option<Node>)
    ensures r.None? <==> forall i :: 0 <= i < |es| ==> es[i].0 != k
    ensures r.Some? ==> exists i :: 0 <= i < |es| && es[i] == (k, r.value)
  {
    if es == [] then None
    else if es[0].0 == k then Some(es[0].1)
    else Find(es[1..], k)
  }

  /** No key occurs twice, as in every Go map. */
  predicate Distinct(es: Entries) {
    forall i, j :: 0 <= i < j < |es| ==> es[i].0 != es[j].0
  }

  /** Go's `m[k] = n`: an existing binding of `k` is replaced where it stands, otherwise one is added. */
  function Put(es: Entries, k: string, n: Node): (r: Entries)
    ensures Find(r, k) == Some(n)
    ensures forall k' :: k' != k ==> Find(r, k') == Find(es, k')
  {
    if es == [] then [(k, n)]
    else if es[0].0 == k then
      var r := [(k, n)] + es[1..];
      assert r[1..] == es[1..];
      r
    else
      var r := [es[0]] + Put(es[1..], k, n);
      assert r[1..] == Put(es[1..], k, n);
      r
  }

  /** `Put` adds no entry but `(k, n)`, and keeps the keys unique. */
  lemma PutEntries(es: Entries, k: string, n: Node)
    ensures forall i :: 0 <= i < |Put(es, k, n)| ==> Put(es, k, n)[i] == (k, n) || Put(es, k, n)[i] in es
    ensures Distinct(es) ==> Distinct(Put(es, k, n))
  {
    PutFrom(es, k, n);
    if Distinct(es) {
      PutDistinct(es, k, n);
    }
  }

  lemma {:induction false} PutFrom(es: Entries, k: string, n: Node)
    ensures forall i :: 0 <= i < |Put(es, k, n)| ==> Put(es, k, n)[i] == (k, n) || Put(es, k, n)[i] in es
  {
    if es != [] && es[0].0 != k {
      var rest := Put(es[1..], k, n);
      PutFrom(es[1..], k, n);
      var r := [es[0]] + rest;
      assert Put(es, k, n) == r;
      forall i | 1 <= i < |r| ensures r[i] == (k, n) || r[i] in es {
        assert r[i] == rest[i - 1];
      }
    }
  }

  lemma {:induction false} PutDistinct(es: Entries, k: string, n: Node)
    requires Distinct(es)
    ensures Distinct(Put(es, k, n))
  {
    if es != [] && es[0].0 != k {
      var x := es[0].0;
      var rest := Put(es[1..], k, n);
      assert Distinct(es[1..]);
      PutDistinct(es[1..], k, n);
      assert Find(es[1..], x).None? by {
        forall i | 0 <= i < |es[1..]| ensures es[1..][i].0 != x {
          assert es[1..][i] == es[i + 1];
        }
      }
      assert Find(rest, x).None?;
      var r := [es[0]] + rest;
      assert Put(es, k, n) == r;
      forall i, j | 0 <= i < j < |r| ensures r[i].0 != r[j].0 {
        assert r[j] == rest[j - 1];
        if i > 0 {
          assert r[i] == rest[i - 1];
        }
      }
    }
  }

  /** The node reached from `n` by following the keys of `path`. */
  function Lookup(n: Node, path: seq<string>): Option<Node>
    decreases |path|
  {
    if path == [] then Some(n)
    else match n
      case Leaf(_) => None
      case Branch(es) =>
        match Find(es, path[0])
        case None => None
        case Some(child) => Lookup(child, path[1..])
  }

  /** The string found at `path`, if a string is what is there. */
  function LeafAt(n: Node, path: seq<string>): Option<string> {
    match Lookup(n, path)
    case Some(Leaf(v)) => Some(v)
    case _ => None
  }

  /** Keys are unique in every mapping of the tree. */
  predicate WellFormed(n: Node)
    decreases n
  {
    match n
    case Leaf(_) => true
    case Branch(es) => Distinct(es) && forall i :: 0 <= i < |es| ==> WellFormed(es[i].1)
  }

  /** No key anywhere in the tree contains a '.'. */
  predicate Undotted(n: Node)
    decreases n
  {
    match n
    case Leaf(_) => true
    case Branch(es) => forall i :: 0 <= i < |es| ==> '.' !in es[i].0 && Undotted(es[i].1)
  }

  function Sum(s: seq<nat>): nat {
    if s == [] then 0 else s[0] + Sum(s[1..])
  }

  /** The number of nodes of the tree; a termination measure. */
  function Size(n: Node): nat
    decreases n
  {
    match n
    case Leaf(_) => 1
    case Branch(es) => 1 + Sum(seq(|es|, i requires 0 <= i < |es| => Size(es[i].1)))
  }

  function EntriesSize(es: Entries): nat {
    Size(Branch(es)) - 1
  }

  lemma EntriesSizeCons(es: Entries)
    requires es != []
    ensures EntriesSize(es) == Size(es[0].1) + EntriesSize(es[1..])
  {
    var s := seq(|es|, i requires 0 <= i < |es| => Size(es[i].1));
    assert s[1..] == seq(|es| - 1, i requires 0 <= i < |es| - 1 => Size(es[1..][i].1));
  }

  /** A string, or a mapping that holds at least one entry. */
  predicate Occupied(n: Node) {
    n.Branch? ==> n.entries != []
  }

  /** Every mapping below the root holds an entry. */
  predicate NoEmptyBelow(n: Node)
    decreases n
  {
    match n
    case Leaf(_) => true
    case Branch(es) => forall i :: 0 <= i < |es| ==> Occupied(es[i].1) && NoEmptyBelow(es[i].1)
  }

  /** `Put` of a string or of an occupied mapping keeps a tree free of empty mappings. */
  lemma PutKeeps(es: Entries, k: string, n: Node)
    requires NoEmptyBelow(Branch(es)) && Occupied(n) && NoEmptyBelow(n)
    ensures NoEmptyBelow(Branch(Put(es, k, n)))
  {
    PutFrom(es, k, n);
    var r := Put(es, k, n);
    forall i | 0 <= i < |r| ensures Occupied(r[i].1) && NoEmptyBelow(r[i].1) {
      if r[i] != (k, n) {
        var j :| 0 <= j < |es| && es[j] == r[i];
      }
    }
  }

  /**
   * A node as the Go value it stands for: a mapping becomes a `map`, so the
   * order in which its entries happen to be kept is forgotten.
   */
  datatype Value = Str(s: string) | Mapping(m: map<string, Value>)

  function ToValue(n: Node): Value
    decreases Size(n), 1
  {
    match n
    case Leaf(v) => Str(v)
    case Branch(es) => Mapping(MapOf(es))
  }

  /** The map of a mapping's entries; a key bound twice counts with its first entry, as for `Find`. */
  function MapOf(es: Entries): (r: map<string, Value>)
    ensures forall k :: k in r <==> Find(es, k).Some?
    decreases EntriesSize(es) + 1, 0
  {
    if es == [] then map[]
    else
      EntriesSizeCons(es);
      MapOf(es[1..])[es[0].0 := ToValue(es[0].1)]
  }

  /** Each key of the map is bound to the value of the node `Find` gives for it. */
  lemma {:induction false} MapOfValues(es: Entries, k: string)
    requires Find(es, k).Some?
    ensures MapOf(es)[k] == ToValue(Find(es, k).value)
  {
    if es[0].0 != k {
      MapOfValues(es[1..], k);
    }
  }

  /** The strings under the key `k` of a mapping are those of the node bound to `k`. */
  lemma LeafAtBelow(es: Entries, k: string, q: seq<string>)
    ensures LeafAt(Branch(es), [k] + q) ==
      match Find(es, k)
      case None => None
      case Some(c) => LeafAt(c, q)
  {
    assert ([k] + q)[0] == k && ([k] + q)[1..] == q;
  }

  /** An occupied node without empty mappings below it holds some string. */
  lemma {:induction false} HasLeaf(n: Node) returns (q: seq<string>)
    requires Occupied(n) && NoEmptyBelow(n)
    ensures LeafAt(n, q).Some?
    decreases n
  {
    match n
    case Leaf(_) =>
      q := [];
    case Branch(es) =>
      var r := HasLeaf(es[0].1);
      LeafAtBelow(es, es[0].0, r);
      q := [es[0].0] + r;
  }

  /**
   * Without empty mappings below the root, the strings under their paths
   * determine the Go value: two such trees that agree on every path are the
   * same map, whatever order their entries are kept in.
   */
  lemma {:induction false} SameLeavesSameValue(a: Node, b: Node)
    requires NoEmptyBelow(a) && NoEmptyBelow(b)
    requires forall q :: LeafAt(a, q) == LeafAt(b, q)
    ensures ToValue(a) == ToValue(b)
    decreases a
  {
    assert LeafAt(a, []) == LeafAt(b, []);
    assert Lookup(a, []) == Some(a) && Lookup(b, []) == Some(b);
    if a.Branch? {
      var es1, es2 := a.entries, b.entries;
      forall k | Find(es1, k).Some?
        ensures Find(es2, k).Some? && MapOf(es2)[k] == MapOf(es1)[k]
      {
        KeyInBoth(es1, es2, k);
        var c1 := ChildNoEmpty(es1, k);
        var c2 := ChildNoEmpty(es2, k);
        ChildLeaves(es1, es2, k);
        SameLeavesSameValue(c1, c2);
        MapOfValues(es1, k);
        MapOfValues(es2, k);
      }
      forall k | Find(es2, k).Some? ensures Find(es1, k).Some? {
        KeyInBoth(es2, es1, k);
      }
      assert MapOf(es1).Keys == MapOf(es2).Keys;
    }
  }

  /** The converse: the same Go value holds the same strings under the same paths. */
  lemma {:induction false} SameValueSameLeaves(a: Node, b: Node, q: seq<string>)
    requires ToValue(a) == ToValue(b)
    ensures LeafAt(a, q) == LeafAt(b, q)
    decreases |q|
  {
    if a.Branch? && q != [] {
      var es1, es2 := a.entries, b.entries;
      var k := q[0];
      assert q == [k] + q[1..];
      LeafAtBelow(es1, k, q[1..]);
      LeafAtBelow(es2, k, q[1..]);
      assert k in MapOf(es1) <==> k in MapOf(es2);
      if Find(es1, k).Some? {
        MapOfValues(es1, k);
        MapOfValues(es2, k);
        SameValueSameLeaves(Find(es1, k).value, Find(es2, k).value, q[1..]);
      }
    }
  }

  /** The node bound to a key of a tree without empty mappings is occupied and has none either. */
  lemma ChildNoEmpty(es: Entries, k: string) returns (c: Node)
    requires NoEmptyBelow(Branch(es)) && Find(es, k).Some?
    ensures c == Find(es, k).value && c < Branch(es)
    ensures Occupied(c) && NoEmptyBelow(c)
  {
    c := Find(es, k).value;
    var i :| 0 <= i < |es| && es[i] == (k, c);
  }

  /** A key of one mapping is a key of another that holds the same strings, when its node is occupied. */
  lemma KeyInBoth(es1: Entries, es2: Entries, k: string)
    requires NoEmptyBelow(Branch(es1)) && Find(es1, k).Some?
    requires forall q :: LeafAt(Branch(es1), q) == LeafAt(Branch(es2), q)
    ensures Find(es2, k).Some?
  {
    var c1 := ChildNoEmpty(es1, k);
    var q := HasLeaf(c1);
    LeafAtBelow(es1, k, q);
    LeafAtBelow(es2, k, q);
  }

  /** Two mappings that hold the same strings hold the same strings under a key they share. */
  lemma ChildLeaves(es1: Entries, es2: Entries, k: string)
    requires Find(es1, k).Some? && Find(es2, k).Some?
    requires forall q :: LeafAt(Branch(es1), q) == LeafAt(Branch(es2), q)
    ensures forall r :: LeafAt(Find(es1, k).value, r) == LeafAt(Find(es2, k).value, r)
  {
    forall r ensures LeafAt(Find(es1, k).value, r) == LeafAt(Find(es2, k).value, r) {
      LeafAtBelow(es1, k, r);
      LeafAtBelow(es2, k, r);
    }
  }

  /** The strings of a mapping, split into its first entry and the rest. */
  lemma LeafAtCons(es: Entries, q: seq<string>)
    requires es != [] && q != []
    ensures LeafAt(Branch(es), q) ==
      if q[0] == es[0].0 then LeafAt(es[0].1, q[1..]) else LeafAt(Branch(es[1..]), q)
  {
    if q[0] != es[0].0 {
      assert Find(es, q[0]) == Find(es[1..], q[0]);
    }
  }

  /** A string is only found at the empty path of a string. */
  lemma LeafAtLeaf(v: string, q: seq<string>)
    ensures LeafAt(Leaf(v), q).Some? <==> q == []
  {
  }

  /** The path to a string in a tree without dotted keys has no dotted segment. */
  lemma {:induction false} LeafPathUndotted(n: Node, q: seq<string>)
    requires Undotted(n) && LeafAt(n, q).Some?
    ensures forall i :: 0 <= i < |q| ==> '.' !in q[i]
    decreases |q|
  {
    if q != [] {
      var es := n.entries;
      var child := Find(es, q[0]).value;
      var j :| 0 <= j < |es| && es[j] == (q[0], child);
      assert LeafAt(child, q[1..]) == LeafAt(n, q);
      LeafPathUndotted(child, q[1..]);
      forall i | 1 <= i < |q| ensures '.' !in q[i] {
        assert q[i] == q[1..][i - 1];
      }
    }
  }
}
