/**
 * `flattenYAML` and `flattenMap` (main.go:175-190): every string of the nested
 * document is written to the flat properties under the keys met on the way to
 * it, joined with '.'.
 */
module Flattener {
  import opened Wrappers
  import opened Strings
  import opened Tree

  /**
   * What `flattenMap(prefix, es, acc)` leaves in the properties: the entries are
   * visited in order, a string is stored under `prefix + key`, and a mapping is
   * flattened in turn with `prefix + key + "."`. A later store under the same
   * key replaces an earlier one.
   */
  function Flatten(prefix: string, es: Entries, acc: map<string, string>): (r: map<string, string>)
    ensures forall k :: k in acc ==> k in r
    decreases EntriesSize(es)
  {
    if es == [] then acc
    else
      EntriesSizeCons(es);
      var (k, n) := es[0];
      var acc' := match n
        case Leaf(v) => acc[prefix + k := v]
        case Branch(sub) => Flatten(prefix + k + ".", sub, acc);
      Flatten(prefix, es[1..], acc')
  }

  /** The loop of main.go:182-189; the properties map, shared by reference in Go, is passed in and handed back. */
  method FlattenMap(prefix: string, es: Entries, properties: map<string, string>) returns (out: map<string, string>)
    ensures out == Flatten(prefix, es, properties)
    decreases Branch(es)
  {
    out := properties;
    for i := 0 to |es|
      invariant Flatten(prefix, es[i..], out) == Flatten(prefix, es, properties)
    {
      EntriesSizeCons(es[i..]);
      assert es[i..][1..] == es[i + 1..];
      var (key, value) := es[i];
      var newKey := prefix + key;
      match value
      case Branch(sub) =>
        out := FlattenMap(newKey + ".", sub, out);
      case Leaf(v) =>
        out := out[newKey := v];
    }
  }

  /** `flattenYAML` (main.go:175-179): flatten the whole document into empty properties. */
  method FlattenYAML(es: Entries) returns (properties: map<string, string>)
    ensures properties == Flatten("", es, map[])
  {
    properties := map[];
    properties := FlattenMap("", es, properties);
  }

  /** `key` is `prefix` followed by the joined path of some string of `t`. */
  ghost predicate FlatKey(t: Node, prefix: string, key: string) {
    exists q :: LeafAt(t, q).Some? && key == prefix + Join(q)
  }

  /** `key` is one of the keys the first entry `e` contributes under `prefix`. */
  ghost predicate HeadKey(prefix: string, e: (string, Node), key: string) {
    match e.1
    case Leaf(_) => key == prefix + e.0
    case Branch(sub) => FlatKey(Branch(sub), prefix + e.0 + ".", key)
  }

  /** A path to a string of a mapping is never empty. */
  lemma BranchLeafPathNonEmpty(es: Entries, q: seq<string>)
    requires LeafAt(Branch(es), q).Some?
    ensures q != []
  {
  }

  /** The first key of a mapping with unique keys is absent from the rest. */
  lemma FirstKeyNotInRest(es: Entries)
    requires es != [] && Distinct(es)
    ensures Find(es[1..], es[0].0).None?
  {
    forall i | 0 <= i < |es| - 1 ensures es[1..][i].0 != es[0].0 {
      assert es[1..][i] == es[i + 1];
    }
  }

  /** The keys of a mapping are those of its first entry and those of the rest. */
  lemma FlatKeyCons(prefix: string, es: Entries, key: string)
    requires es != [] && WellFormed(Branch(es))
    ensures FlatKey(Branch(es), prefix, key) <==> HeadKey(prefix, es[0], key) || FlatKey(Branch(es[1..]), prefix, key)
  {
    if FlatKey(Branch(es), prefix, key) {
      FlatKeySplits(prefix, es, key);
    }
    if HeadKey(prefix, es[0], key) {
      HeadKeyIsFlatKey(prefix, es, key);
    }
    if FlatKey(Branch(es[1..]), prefix, key) {
      RestKeyIsFlatKey(prefix, es, key);
    }
  }

  lemma FlatKeySplits(prefix: string, es: Entries, key: string)
    requires es != [] && FlatKey(Branch(es), prefix, key)
    ensures HeadKey(prefix, es[0], key) || FlatKey(Branch(es[1..]), prefix, key)
  {
    var (k, n) := es[0];
    var q :| LeafAt(Branch(es), q).Some? && key == prefix + Join(q);
    BranchLeafPathNonEmpty(es, q);
    LeafAtCons(es, q);
    if q[0] == k {
      if n.Leaf? {
        LeafAtLeaf(n.value, q[1..]);
        assert q == [k];
      } else {
        BranchLeafPathNonEmpty(n.entries, q[1..]);
        assert q == [k] + q[1..];
        JoinAppend([k], q[1..]);
        assert key == prefix + k + "." + Join(q[1..]);
      }
    } else {
      assert LeafAt(Branch(es[1..]), q).Some?;
    }
  }

  lemma HeadKeyIsFlatKey(prefix: string, es: Entries, key: string)
    requires es != [] && HeadKey(prefix, es[0], key)
    ensures FlatKey(Branch(es), prefix, key)
  {
    var (k, n) := es[0];
    if n.Leaf? {
      LeafAtCons(es, [k]);
      assert LeafAt(Branch(es), [k]).Some?;
    } else {
      var q' :| LeafAt(Branch(n.entries), q').Some? && key == prefix + k + "." + Join(q');
      BranchLeafPathNonEmpty(n.entries, q');
      var q := [k] + q';
      assert q[1..] == q';
      LeafAtCons(es, q);
      JoinAppend([k], q');
      assert LeafAt(Branch(es), q).Some? && key == prefix + Join(q);
    }
  }

  lemma RestKeyIsFlatKey(prefix: string, es: Entries, key: string)
    requires es != [] && Distinct(es) && FlatKey(Branch(es[1..]), prefix, key)
    ensures FlatKey(Branch(es), prefix, key)
  {
    var q :| LeafAt(Branch(es[1..]), q).Some? && key == prefix + Join(q);
    BranchLeafPathNonEmpty(es[1..], q);
    FirstKeyNotInRest(es);
    assert q[0] != es[0].0;
    LeafAtCons(es, q);
    assert LeafAt(Branch(es), q).Some?;
  }

  /** The keys of the first entry and those of the rest never meet when no key holds a '.'. */
  lemma HeadRestDisjoint(prefix: string, es: Entries, key: string)
    requires es != [] && WellFormed(Branch(es)) && Undotted(Branch(es))
    ensures !(HeadKey(prefix, es[0], key) && FlatKey(Branch(es[1..]), prefix, key))
  {
    if FlatKey(Branch(es[1..]), prefix, key) && HeadKey(prefix, es[0], key) {
      var q := RestPath(prefix, es, key);
      var q2 := HeadPath(prefix, es, key);
      assert (prefix + Join(q))[|prefix|..] == Join(q);
      assert (prefix + Join(q2))[|prefix|..] == Join(q2);
      JoinInjective(q, q2);
    }
  }

  /** A key of the rest of a mapping comes from a dot-free path that avoids the first key. */
  lemma RestPath(prefix: string, es: Entries, key: string) returns (q: seq<string>)
    requires es != [] && WellFormed(Branch(es)) && Undotted(Branch(es))
    requires FlatKey(Branch(es[1..]), prefix, key)
    ensures |q| >= 1 && q[0] != es[0].0 && DotFree(q) && key == prefix + Join(q)
  {
    var rest := es[1..];
    q :| LeafAt(Branch(rest), q).Some? && key == prefix + Join(q);
    BranchLeafPathNonEmpty(rest, q);
    FirstKeyNotInRest(es);
    assert Undotted(Branch(rest)) by {
      forall i | 0 <= i < |rest| ensures rest[i] == es[i + 1] { }
    }
    LeafPathUndotted(Branch(rest), q);
  }

  /** A key of the first entry comes from a dot-free path through the first key. */
  lemma HeadPath(prefix: string, es: Entries, key: string) returns (q: seq<string>)
    requires es != [] && Undotted(Branch(es))
    requires HeadKey(prefix, es[0], key)
    ensures |q| >= 1 && q[0] == es[0].0 && DotFree(q) && key == prefix + Join(q)
  {
    var (k, n) := es[0];
    assert '.' !in k && Undotted(n);
    q := [k];
    if n.Branch? {
      var q' :| LeafAt(Branch(n.entries), q').Some? && key == prefix + k + "." + Join(q');
      BranchLeafPathNonEmpty(n.entries, q');
      LeafPathUndotted(n, q');
      JoinAppend([k], q');
      q := [k] + q';
      assert forall i :: 1 <= i < |q| ==> q[i] == q'[i - 1];
    }
  }

  /**
   * `r` is what flattening `t` under `prefix` into `acc` should give: each
   * string of `t` stored under `prefix` and its joined path, no other key
   * added, and `acc` kept under every other key.
   */
  ghost predicate Stores(t: Node, prefix: string, acc: map<string, string>, r: map<string, string>) {
    (forall key :: key in r <==> key in acc || FlatKey(t, prefix, key))
    && (forall q :: LeafAt(t, q).Some? ==> prefix + Join(q) in r && r[prefix + Join(q)] == LeafAt(t, q).value)
    && (forall key :: key in acc && !FlatKey(t, prefix, key) ==> key in r && r[key] == acc[key])
  }

  /** When no key holds a '.', flattening stores exactly the strings of the tree under their joined paths. */
  lemma {:induction false} FlattenContents(prefix: string, es: Entries, acc: map<string, string>)
    requires WellFormed(Branch(es)) && Undotted(Branch(es))
    ensures Stores(Branch(es), prefix, acc, Flatten(prefix, es, acc))
    decreases EntriesSize(es)
  {
    if es == [] {
      forall key ensures !FlatKey(Branch(es), prefix, key) {
        forall q ensures LeafAt(Branch(es), q).None? { }
      }
    } else {
      EntriesSizeCons(es);
      var (k, n) := es[0];
      var rest := es[1..];
      var mid := match n
        case Leaf(v) => acc[prefix + k := v]
        case Branch(sub) => Flatten(prefix + k + ".", sub, acc);
      assert Flatten(prefix, es, acc) == Flatten(prefix, rest, mid);
      assert WellFormed(Branch(rest)) && Undotted(Branch(rest)) by {
        forall i | 0 <= i < |rest| ensures rest[i] == es[i + 1] { }
      }
      FlattenContents(prefix, rest, mid);
      assert WellFormed(n) && Undotted(n) by { assert es[0] == (k, n); }
      if n.Branch? {
        FlattenContents(prefix + k + ".", n.entries, acc);
      }
      StoresCons(prefix, es, acc, mid, Flatten(prefix, rest, mid));
    }
  }

  /** Flattening the first entry and then the rest stores the strings of the whole mapping. */
  lemma StoresCons(prefix: string, es: Entries, acc: map<string, string>, mid: map<string, string>, r: map<string, string>)
    requires es != [] && WellFormed(Branch(es)) && Undotted(Branch(es))
    requires es[0].1.Leaf? ==> mid == acc[prefix + es[0].0 := es[0].1.value]
    requires es[0].1.Branch? ==> Stores(es[0].1, prefix + es[0].0 + ".", acc, mid)
    requires Stores(Branch(es[1..]), prefix, mid, r)
    ensures Stores(Branch(es), prefix, acc, r)
  {
    forall key
      ensures (key in r <==> key in acc || FlatKey(Branch(es), prefix, key))
      ensures key in acc && !FlatKey(Branch(es), prefix, key) ==> key in r && r[key] == acc[key]
    {
      StoresConsKey(prefix, es, acc, mid, r, key);
    }
    forall q | LeafAt(Branch(es), q).Some?
      ensures prefix + Join(q) in r && r[prefix + Join(q)] == LeafAt(Branch(es), q).value
    {
      StoresConsPath(prefix, es, acc, mid, r, q);
    }
  }

  lemma StoresConsKey(prefix: string, es: Entries, acc: map<string, string>, mid: map<string, string>,
                      r: map<string, string>, key: string)
    requires es != [] && WellFormed(Branch(es)) && Undotted(Branch(es))
    requires es[0].1.Leaf? ==> mid == acc[prefix + es[0].0 := es[0].1.value]
    requires es[0].1.Branch? ==> Stores(es[0].1, prefix + es[0].0 + ".", acc, mid)
    requires Stores(Branch(es[1..]), prefix, mid, r)
    ensures key in r <==> key in acc || FlatKey(Branch(es), prefix, key)
    ensures key in acc && !FlatKey(Branch(es), prefix, key) ==> key in r && r[key] == acc[key]
  {
    FlatKeyCons(prefix, es, key);
    HeadRestDisjoint(prefix, es, key);
    HeadStoredKey(prefix, es[0], acc, mid, key);
    StoredKey(Branch(es[1..]), prefix, mid, r, key);
  }

  /** What flattening the first entry does to one key. */
  lemma HeadStoredKey(prefix: string, e: (string, Node), acc: map<string, string>, mid: map<string, string>,
                      key: string)
    requires e.1.Leaf? ==> mid == acc[prefix + e.0 := e.1.value]
    requires e.1.Branch? ==> Stores(e.1, prefix + e.0 + ".", acc, mid)
    ensures key in mid <==> key in acc || HeadKey(prefix, e, key)
    ensures key in acc && !HeadKey(prefix, e, key) ==> key in mid && mid[key] == acc[key]
  {
    if e.1.Branch? {
      StoredKey(e.1, prefix + e.0 + ".", acc, mid, key);
    }
  }

  /** `Stores` at one key. */
  lemma StoredKey(t: Node, prefix: string, acc: map<string, string>, r: map<string, string>, key: string)
    requires Stores(t, prefix, acc, r)
    ensures key in r <==> key in acc || FlatKey(t, prefix, key)
    ensures key in acc && !FlatKey(t, prefix, key) ==> key in r && r[key] == acc[key]
  {
  }

  lemma StoresConsPath(prefix: string, es: Entries, acc: map<string, string>, mid: map<string, string>,
                       r: map<string, string>, q: seq<string>)
    requires es != [] && WellFormed(Branch(es)) && Undotted(Branch(es))
    requires es[0].1.Leaf? ==> mid == acc[prefix + es[0].0 := es[0].1.value]
    requires es[0].1.Branch? ==> Stores(es[0].1, prefix + es[0].0 + ".", acc, mid)
    requires Stores(Branch(es[1..]), prefix, mid, r)
    requires LeafAt(Branch(es), q).Some?
    ensures prefix + Join(q) in r && r[prefix + Join(q)] == LeafAt(Branch(es), q).value
  {
    BranchLeafPathNonEmpty(es, q);
    LeafAtCons(es, q);
    if q[0] == es[0].0 {
      var key := prefix + Join(q);
      HeadPathStored(prefix, es[0].0, es[0].1, acc, mid, q);
      HeadRestDisjoint(prefix, es, key);
    } else {
      assert LeafAt(Branch(es[1..]), q) == LeafAt(Branch(es), q);
    }
  }

  /** A string of the first entry is stored by flattening that entry. */
  lemma HeadPathStored(prefix: string, k: string, n: Node, acc: map<string, string>, mid: map<string, string>,
                       q: seq<string>)
    requires n.Leaf? ==> mid == acc[prefix + k := n.value]
    requires n.Branch? ==> Stores(n, prefix + k + ".", acc, mid)
    requires q != [] && q[0] == k && LeafAt(n, q[1..]).Some?
    ensures prefix + Join(q) in mid && mid[prefix + Join(q)] == LeafAt(n, q[1..]).value
    ensures HeadKey(prefix, (k, n), prefix + Join(q))
  {
    if n.Leaf? {
      LeafAtLeaf(n.value, q[1..]);
      assert q == [k];
    } else {
      BranchLeafPathNonEmpty(n.entries, q[1..]);
      StoredLeaf(n, prefix + k + ".", acc, mid, q[1..]);
      JoinUnder(prefix, q);
    }
  }

  /** The key of a path under `prefix` is the key of its tail under the first segment. */
  lemma JoinUnder(prefix: string, q: seq<string>)
    requires |q| >= 2
    ensures prefix + Join(q) == prefix + q[0] + "." + Join(q[1..])
  {
  }

  /** One string of `t`, as `Stores` places it. */
  lemma StoredLeaf(t: Node, prefix: string, acc: map<string, string>, r: map<string, string>, q: seq<string>)
    requires Stores(t, prefix, acc, r) && LeafAt(t, q).Some?
    ensures prefix + Join(q) in r && r[prefix + Join(q)] == LeafAt(t, q).value
    ensures FlatKey(t, prefix, prefix + Join(q))
  {
  }

  /**
   * `r` is what flattening `t` under `prefix` into `acc` gives for any tree,
   * dotted keys included. The keys are exactly those of `acc` and the joined
   * paths of the strings of `t`. Such a key holds the string of some path that
   * joins to it; when two paths collide, which one depends on the visiting
   * order. Every other key of `acc` keeps its value.
   */
  ghost predicate StoresSome(t: Node, prefix: string, acc: map<string, string>, r: map<string, string>) {
    (forall key :: key in r <==> key in acc || FlatKey(t, prefix, key))
    && (forall key :: key in r && FlatKey(t, prefix, key) ==>
          exists q :: LeafAt(t, q).Some? && key == prefix + Join(q) && r[key] == LeafAt(t, q).value)
    && (forall key :: key in acc && !FlatKey(t, prefix, key) ==> key in r && r[key] == acc[key])
  }

  /**
   * For any mapping Go can decode, dotted keys included, flattening stores every
   * string under its joined path, adds no other key, and keeps the rest of `acc`.
   */
  lemma {:induction false} FlattenAnyTree(prefix: string, es: Entries, acc: map<string, string>)
    requires WellFormed(Branch(es))
    ensures StoresSome(Branch(es), prefix, acc, Flatten(prefix, es, acc))
    decreases EntriesSize(es)
  {
    if es == [] {
      forall key ensures !FlatKey(Branch(es), prefix, key) {
        forall q ensures LeafAt(Branch(es), q).None? { }
      }
    } else {
      EntriesSizeCons(es);
      var (k, n) := es[0];
      var rest := es[1..];
      var mid := match n
        case Leaf(v) => acc[prefix + k := v]
        case Branch(sub) => Flatten(prefix + k + ".", sub, acc);
      assert Flatten(prefix, es, acc) == Flatten(prefix, rest, mid);
      assert WellFormed(Branch(rest)) by {
        forall i | 0 <= i < |rest| ensures rest[i] == es[i + 1] { }
      }
      FlattenAnyTree(prefix, rest, mid);
      assert WellFormed(n) by { assert es[0] == (k, n); }
      if n.Branch? {
        FlattenAnyTree(prefix + k + ".", n.entries, acc);
      }
      StoresSomeCons(prefix, es, acc, mid, Flatten(prefix, rest, mid));
    }
  }

  /** Flattening the first entry and then the rest gives `StoresSome` for the whole mapping. */
  lemma StoresSomeCons(prefix: string, es: Entries, acc: map<string, string>, mid: map<string, string>,
                       r: map<string, string>)
    requires es != [] && WellFormed(Branch(es))
    requires es[0].1.Leaf? ==> mid == acc[prefix + es[0].0 := es[0].1.value]
    requires es[0].1.Branch? ==> StoresSome(es[0].1, prefix + es[0].0 + ".", acc, mid)
    requires StoresSome(Branch(es[1..]), prefix, mid, r)
    ensures StoresSome(Branch(es), prefix, acc, r)
  {
    forall key
      ensures key in r <==> key in acc || FlatKey(Branch(es), prefix, key)
      ensures key in r && FlatKey(Branch(es), prefix, key) ==>
        exists q :: LeafAt(Branch(es), q).Some? && key == prefix + Join(q) && r[key] == LeafAt(Branch(es), q).value
      ensures key in acc && !FlatKey(Branch(es), prefix, key) ==> key in r && r[key] == acc[key]
    {
      StoresSomeConsKey(prefix, es, acc, mid, r, key);
    }
  }

  lemma StoresSomeConsKey(prefix: string, es: Entries, acc: map<string, string>, mid: map<string, string>,
                          r: map<string, string>, key: string)
    requires es != [] && WellFormed(Branch(es))
    requires es[0].1.Leaf? ==> mid == acc[prefix + es[0].0 := es[0].1.value]
    requires es[0].1.Branch? ==> StoresSome(es[0].1, prefix + es[0].0 + ".", acc, mid)
    requires StoresSome(Branch(es[1..]), prefix, mid, r)
    ensures key in r <==> key in acc || FlatKey(Branch(es), prefix, key)
    ensures key in r && FlatKey(Branch(es), prefix, key) ==>
      exists q :: LeafAt(Branch(es), q).Some? && key == prefix + Join(q) && r[key] == LeafAt(Branch(es), q).value
    ensures key in acc && !FlatKey(Branch(es), prefix, key) ==> key in r && r[key] == acc[key]
  {
    FlatKeyCons(prefix, es, key);
    HeadSomeKey(prefix, es[0], acc, mid, key);
    StoredSomeKey(Branch(es[1..]), prefix, mid, r, key);
    if FlatKey(Branch(es[1..]), prefix, key) {
      var q := RestLeaf(prefix, es, mid, r, key);
    } else if HeadKey(prefix, es[0], key) {
      var q := HeadLeaf(prefix, es, acc, mid, key);
    }
  }

  /** What flattening the first entry does to one key, for any tree. */
  lemma HeadSomeKey(prefix: string, e: (string, Node), acc: map<string, string>, mid: map<string, string>,
                    key: string)
    requires e.1.Leaf? ==> mid == acc[prefix + e.0 := e.1.value]
    requires e.1.Branch? ==> StoresSome(e.1, prefix + e.0 + ".", acc, mid)
    ensures key in mid <==> key in acc || HeadKey(prefix, e, key)
    ensures key in acc && !HeadKey(prefix, e, key) ==> key in mid && mid[key] == acc[key]
  {
    if e.1.Branch? {
      StoredSomeKey(e.1, prefix + e.0 + ".", acc, mid, key);
    }
  }

  /** `StoresSome` at one key. */
  lemma StoredSomeKey(t: Node, prefix: string, acc: map<string, string>, r: map<string, string>, key: string)
    requires StoresSome(t, prefix, acc, r)
    ensures key in r <==> key in acc || FlatKey(t, prefix, key)
    ensures key in acc && !FlatKey(t, prefix, key) ==> key in r && r[key] == acc[key]
  {
  }

  /** The path whose string `StoresSome` puts under a key of the tree. */
  lemma StoredSomeLeaf(t: Node, prefix: string, acc: map<string, string>, r: map<string, string>, key: string)
    returns (q: seq<string>)
    requires StoresSome(t, prefix, acc, r) && FlatKey(t, prefix, key)
    ensures LeafAt(t, q).Some? && key == prefix + Join(q) && key in r && r[key] == LeafAt(t, q).value
  {
    q :| LeafAt(t, q).Some? && key == prefix + Join(q) && r[key] == LeafAt(t, q).value;
  }

  /** A key stored by the rest of a mapping holds a string of the whole mapping. */
  lemma RestLeaf(prefix: string, es: Entries, mid: map<string, string>, r: map<string, string>, key: string)
    returns (q: seq<string>)
    requires es != [] && WellFormed(Branch(es))
    requires StoresSome(Branch(es[1..]), prefix, mid, r) && FlatKey(Branch(es[1..]), prefix, key)
    ensures LeafAt(Branch(es), q).Some? && key == prefix + Join(q) && key in r && r[key] == LeafAt(Branch(es), q).value
  {
    q := StoredSomeLeaf(Branch(es[1..]), prefix, mid, r, key);
    BranchLeafPathNonEmpty(es[1..], q);
    FirstKeyNotInRest(es);
    assert q[0] != es[0].0;
    LeafAtCons(es, q);
  }

  /** A key stored by the first entry holds a string of the whole mapping. */
  lemma HeadLeaf(prefix: string, es: Entries, acc: map<string, string>, mid: map<string, string>, key: string)
    returns (q: seq<string>)
    requires es != []
    requires es[0].1.Leaf? ==> mid == acc[prefix + es[0].0 := es[0].1.value]
    requires es[0].1.Branch? ==> StoresSome(es[0].1, prefix + es[0].0 + ".", acc, mid)
    requires HeadKey(prefix, es[0], key)
    ensures LeafAt(Branch(es), q).Some? && key == prefix + Join(q) && key in mid && mid[key] == LeafAt(Branch(es), q).value
  {
    if es[0].1.Leaf? {
      q := [es[0].0];
      LeafAtCons(es, q);
      assert q[1..] == [];
    } else {
      q := HeadBranchLeaf(prefix, es, acc, mid, key);
    }
  }

  /** `HeadLeaf` when the first entry is a mapping. */
  lemma HeadBranchLeaf(prefix: string, es: Entries, acc: map<string, string>, mid: map<string, string>, key: string)
    returns (q: seq<string>)
    requires es != [] && es[0].1.Branch?
    requires StoresSome(es[0].1, prefix + es[0].0 + ".", acc, mid)
    requires FlatKey(es[0].1, prefix + es[0].0 + ".", key)
    ensures LeafAt(Branch(es), q).Some? && key == prefix + Join(q) && key in mid && mid[key] == LeafAt(Branch(es), q).value
  {
    var (k, n) := es[0];
    var q' := StoredSomeLeaf(n, prefix + k + ".", acc, mid, key);
    BranchLeafPathNonEmpty(n.entries, q');
    q := [k] + q';
    assert q[0] == k && q[1..] == q';
    JoinUnder(prefix, q);
    LeafAtCons(es, q);
  }

  /**
   * Without dotted keys, the order in which Go visits the entries of the
   * document does not matter: two documents that are the same Go value flatten
   * to the same properties.
   */
  lemma FlattenOrderIrrelevant(prefix: string, es1: Entries, es2: Entries, acc: map<string, string>)
    requires WellFormed(Branch(es1)) && Undotted(Branch(es1))
    requires WellFormed(Branch(es2)) && Undotted(Branch(es2))
    requires ToValue(Branch(es1)) == ToValue(Branch(es2))
    ensures Flatten(prefix, es1, acc) == Flatten(prefix, es2, acc)
  {
    var t1, t2 := Branch(es1), Branch(es2);
    var r1, r2 := Flatten(prefix, es1, acc), Flatten(prefix, es2, acc);
    FlattenContents(prefix, es1, acc);
    FlattenContents(prefix, es2, acc);
    forall q ensures LeafAt(t1, q) == LeafAt(t2, q) {
      SameValueSameLeaves(t1, t2, q);
    }
    forall key ensures FlatKey(t1, prefix, key) <==> FlatKey(t2, prefix, key) {
      if FlatKey(t1, prefix, key) {
        var q :| LeafAt(t1, q).Some? && key == prefix + Join(q);
        assert LeafAt(t2, q).Some?;
      }
      if FlatKey(t2, prefix, key) {
        var q :| LeafAt(t2, q).Some? && key == prefix + Join(q);
        assert LeafAt(t1, q).Some?;
      }
    }
    forall key | key in r1 ensures key in r2 && r2[key] == r1[key] {
      if FlatKey(t1, prefix, key) {
        var q :| LeafAt(t1, q).Some? && key == prefix + Join(q);
        StoredLeaf(t1, prefix, acc, r1, q);
        StoredLeaf(t2, prefix, acc, r2, q);
      }
    }
    assert r1.Keys == r2.Keys;
  }

  /** A mapping with no entries stores nothing, wherever it stands. */
  lemma EmptyMappingStoresNothing(prefix: string, k: string, es: Entries, acc: map<string, string>)
    ensures Flatten(prefix, [(k, Branch([]))] + es, acc) == Flatten(prefix, es, acc)
  {
    assert ([(k, Branch([]))] + es)[1..] == es;
  }

  /**
   * A key holding a '.' collides with the same path spelled as nested keys: both
   * store under "a.b", and the entry visited last wins.
   */
  lemma DottedKeyCollision()
    ensures Flatten("", [("a.b", Leaf("1")), ("a", Branch([("b", Leaf("2"))]))], map[]) == map["a.b" := "2"]
    ensures Flatten("", [("a", Branch([("b", Leaf("2"))])), ("a.b", Leaf("1"))], map[]) == map["a.b" := "1"]
  {
    var inner := [("b", Leaf("2"))];
    assert "a." + "b" == "a.b" && "" + "a" + "." == "a." && "" + "a.b" == "a.b";
    assert inner[1..] == [];
    assert Flatten("a.", inner, map[]) == Flatten("a.", [], map["a.b" := "2"]);
    assert Flatten("a.", inner, map["a.b" := "1"]) == Flatten("a.", [], map["a.b" := "1"]["a.b" := "2"]);
    assert map["a.b" := "1"]["a.b" := "2"] == map["a.b" := "2"];
    var es1 := [("a.b", Leaf("1")), ("a", Branch(inner))];
    assert es1[1..] == [("a", Branch(inner))];
    assert es1[1..][1..] == [];
    assert Flatten("", es1, map[]) == Flatten("", es1[1..], map["a.b" := "1"]);
    assert Flatten("", es1[1..], map["a.b" := "1"]) == Flatten("", [], Flatten("a.", inner, map["a.b" := "1"]));
    var es2 := [("a", Branch(inner)), ("a.b", Leaf("1"))];
    assert es2[1..] == [("a.b", Leaf("1"))];
    assert es2[1..][1..] == [];
    assert Flatten("", es2, map[]) == Flatten("", es2[1..], Flatten("a.", inner, map[]));
    assert Flatten("", es2[1..], map["a.b" := "2"]) == Flatten("", [], map["a.b" := "2"]["a.b" := "1"]);
    assert map["a.b" := "2"]["a.b" := "1"] == map["a.b" := "1"];
  }
}
