/**
 * The two directions of the converter taken together: a properties map
 * nested into a tree and flattened again, and a properties map written out
 * and read back. Go visits a map in an unspecified order; here the order is a
 * sequence of pairs that lists the map (`Lists`), and the results are shown
 * not to depend on it.
 */
module Conversion {
  import opened Wrappers
  import opened Strings
  import opened Tree
  import opened Nester
  import opened Flattener
  import opened Ordering
  import opened Properties
  import opened Writer

  /** `ps` holds every binding of `m` exactly once, in some order. */
  predicate Lists(ps: seq<(string, string)>, m: map<string, string>) {
    DistinctKeys(ps)
    && (forall i :: 0 <= i < |ps| ==> ps[i].0 in m && m[ps[i].0] == ps[i].1)
    && (forall k :: k in m ==> exists i :: 0 <= i < |ps| && ps[i].0 == k)
  }

  /** No key of `m` lies under another: no key is another key followed by '.' and more. */
  predicate Unnested(m: map<string, string>) {
    forall a, b :: a in m && b in m ==> !DotPrefix(a, b)
  }

  /**
   * Nesting a properties map (main.go:118-138) and flattening the tree again
   * (main.go:175-190) gives back the map, whatever order the map is visited
   * in, as long as no key lies under another.
   */
  lemma NestThenFlatten(m: map<string, string>, ps: seq<(string, string)>)
    requires Lists(ps, m) && Unnested(m)
    ensures Nest(ps).Success?
    ensures Flatten("", Nest(ps).value, map[]) == m
  {
    ListedPrefixFree(ps, m);
    var es := NestedTree(ps);
    FlattenContents("", es, map[]);
    var f := Flatten("", es, map[]);
    FlattenCovers(m, ps, es, f);
    FlattenWithin(m, ps, es, f);
    SameBindings(f, m);
  }

  /** What nesting pairs without keys under other keys builds. */
  lemma NestedTree(ps: seq<(string, string)>) returns (es: Entries)
    requires DistinctKeys(ps) && PrefixFree(ps)
    ensures Nest(ps) == Success(es)
    ensures WellFormed(Branch(es)) && Undotted(Branch(es))
    ensures forall i :: 0 <= i < |ps| ==> LeafAt(Branch(es), Split(ps[i].0)) == Some(ps[i].1)
    ensures forall q :: LeafAt(Branch(es), q).Some? ==> exists i :: 0 <= i < |ps| && Split(ps[i].0) == q
  {
    NestContents(ps);
    NestShape(ps);
    es := Nest(ps).value;
  }

  lemma SameBindings(f: map<string, string>, m: map<string, string>)
    requires forall k :: k in m ==> k in f && f[k] == m[k]
    requires forall k :: k in f ==> k in m
    ensures f == m
  {
  }

  lemma ListedPrefixFree(ps: seq<(string, string)>, m: map<string, string>)
    requires Lists(ps, m) && Unnested(m)
    ensures DistinctKeys(ps) && PrefixFree(ps)
  {
  }

  lemma FlattenCovers(m: map<string, string>, ps: seq<(string, string)>, es: Entries, f: map<string, string>)
    requires Lists(ps, m) && Stores(Branch(es), "", map[], f)
    requires forall i :: 0 <= i < |ps| ==> LeafAt(Branch(es), Split(ps[i].0)) == Some(ps[i].1)
    ensures forall k :: k in m ==> k in f && f[k] == m[k]
  {
    forall k | k in m ensures k in f && f[k] == m[k] {
      var i :| 0 <= i < |ps| && ps[i].0 == k;
      FlattenedPair(es, f, ps[i].0, ps[i].1);
    }
  }

  lemma FlattenWithin(m: map<string, string>, ps: seq<(string, string)>, es: Entries, f: map<string, string>)
    requires Lists(ps, m) && Stores(Branch(es), "", map[], f)
    requires forall q :: LeafAt(Branch(es), q).Some? ==> exists i :: 0 <= i < |ps| && Split(ps[i].0) == q
    ensures forall k :: k in f ==> k in m
  {
    forall k | k in f ensures k in m {
      var i := FlattenedKeyFromPair(es, f, ps, k);
    }
  }

  /** A pair whose path leads to its value in the tree is among the flattened properties. */
  lemma FlattenedPair(es: Entries, f: map<string, string>, k: string, v: string)
    requires Stores(Branch(es), "", map[], f)
    requires LeafAt(Branch(es), Split(k)) == Some(v)
    ensures k in f && f[k] == v
  {
    JoinSplit(k);
    assert "" + Join(Split(k)) == k;
  }

  /** Every flattened key is the key of a pair when every path of the tree is a pair's path. */
  lemma FlattenedKeyFromPair(es: Entries, f: map<string, string>, ps: seq<(string, string)>, k: string)
      returns (i: nat)
    requires Stores(Branch(es), "", map[], f)
    requires forall q :: LeafAt(Branch(es), q).Some? ==> exists i :: 0 <= i < |ps| && Split(ps[i].0) == q
    requires k in f
    ensures i < |ps| && ps[i].0 == k
  {
    assert FlatKey(Branch(es), "", k);
    var q :| LeafAt(Branch(es), q).Some? && k == "" + Join(q);
    i :| 0 <= i < |ps| && Split(ps[i].0) == q;
    JoinSplit(ps[i].0);
    assert "" + Join(q) == Join(q);
  }

  /** Without keys under other keys, the visiting order does not change the flattened result. */
  lemma RoundTripOrderIrrelevant(m: map<string, string>, ps1: seq<(string, string)>, ps2: seq<(string, string)>)
    requires Lists(ps1, m) && Lists(ps2, m) && Unnested(m)
    ensures Nest(ps1).Success? && Nest(ps2).Success?
    ensures Flatten("", Nest(ps1).value, map[]) == Flatten("", Nest(ps2).value, map[])
  {
    NestThenFlatten(m, ps1);
    NestThenFlatten(m, ps2);
  }

  /** A key a line written by `writeProperties` can carry and read back unchanged. */
  predicate WritableKey(k: string) {
    Trimmed(k) && '=' !in k && '\n' !in k && (k == [] || k[0] != '#')
  }

  /** A value that reads back unchanged. */
  predicate WritableValue(v: string) {
    Trimmed(v) && '\n' !in v
  }

  /** Every line of the output is blank or the line of one of the keys. */
  lemma {:induction false} RenderLinesFromKeys(keys: seq<string>, props: map<string, string>, i: nat)
    requires forall k :: k in keys ==> k in props
    requires i < |Render(keys, props)|
    ensures Render(keys, props)[i] == "" ||
      exists j :: 0 <= j < |keys| && Render(keys, props)[i] == Line(keys[j], props[keys[j]])
    decreases |keys|
  {
    var n := |keys| - 1;
    var before := Render(keys[..n], props);
    if i < |before| {
      RenderLinesFromKeys(keys[..n], props, i);
      if before[i] != "" {
        var j :| 0 <= j < n && before[i] == Line(keys[..n][j], props[keys[..n][j]]);
        assert keys[..n][j] == keys[j];
      }
    }
  }

  /** A blank line yields nothing. */
  lemma BlankLineSkipped()
    ensures ParseLine("") == None
  {
  }

  /**
   * Writing a properties map (main.go:192-228) and reading the lines back
   * (main.go:94-108) gives back the map, when its keys and values survive
   * trimming and the split at the first '='.
   */
  lemma WriteThenRead(m: map<string, string>)
    requires forall k :: k in m ==> WritableKey(k) && WritableValue(m[k])
    ensures Parsed(Render(SortedKeys(m.Keys), m)) == m
  {
    ReadBackAll(m, SortedKeys(m.Keys));
  }

  /** Rendering every key of `m`, in whatever order, reads back as `m`. */
  lemma ReadBackAll(m: map<string, string>, keys: seq<string>)
    requires forall k :: k in m ==> WritableKey(k) && WritableValue(m[k])
    requires forall k :: k in keys <==> k in m
    ensures Parsed(Render(keys, m)) == m
  {
    ReadBackCovers(m, keys);
    ReadBackWithin(m, keys);
    SameBindings(Parsed(Render(keys, m)), m);
  }

  /** Every binding of `m` is read back. */
  lemma ReadBackCovers(m: map<string, string>, keys: seq<string>)
    requires forall k :: k in m ==> WritableKey(k) && WritableValue(m[k])
    requires forall k :: k in keys <==> k in m
    ensures forall k :: k in m ==> k in Parsed(Render(keys, m)) && Parsed(Render(keys, m))[k] == m[k]
  {
    forall k | k in m ensures k in Parsed(Render(keys, m)) && Parsed(Render(keys, m))[k] == m[k] {
      ReadBackKey(m, keys, k);
    }
  }

  /** Nothing but a key of `m` is read back. */
  lemma ReadBackWithin(m: map<string, string>, keys: seq<string>)
    requires forall k :: k in m ==> WritableKey(k) && WritableValue(m[k])
    requires forall k :: k in keys <==> k in m
    ensures forall k :: k in Parsed(Render(keys, m)) ==> k in m
  {
    forall k | k in Parsed(Render(keys, m)) ensures k in m {
      ReadBackOnlyKeys(m, keys, k);
    }
  }

  /** A written line reads back as nothing or as one of the written bindings. */
  lemma WrittenLineParse(m: map<string, string>, keys: seq<string>, i: nat)
    requires forall k :: k in m ==> WritableKey(k) && WritableValue(m[k])
    requires forall k :: k in keys ==> k in m
    requires i < |Render(keys, m)|
    ensures ParseLine(Render(keys, m)[i]).None? ||
      exists j :: 0 <= j < |keys| && ParseLine(Render(keys, m)[i]) == Some((keys[j], m[keys[j]]))
  {
    RenderLinesFromKeys(keys, m, i);
    if Render(keys, m)[i] == "" {
      BlankLineSkipped();
    } else {
      var j :| 0 <= j < |keys| && Render(keys, m)[i] == Line(keys[j], m[keys[j]]);
      ParseLineOfPair(keys[j], m[keys[j]]);
    }
  }

  /** Every written key is read back with its value. */
  lemma ReadBackKey(m: map<string, string>, keys: seq<string>, k: string)
    requires forall k :: k in m ==> WritableKey(k) && WritableValue(m[k])
    requires forall k :: k in keys <==> k in m
    requires k in m
    ensures k in Parsed(Render(keys, m)) && Parsed(Render(keys, m))[k] == m[k]
  {
    var r := Render(keys, m);
    var j :| 0 <= j < |keys| && keys[j] == k;
    RenderAt(keys, m, j);
    var pos := j + CountBlanks(keys, j + 1);
    ParseLineOfPair(k, m[k]);
    assert ParseLine(r[pos]) == Some((k, m[k]));
    ParsedBinding(r, k);
    var v := Parsed(r)[k];
    var i :| 0 <= i < |r| && ParseLine(r[i]) == Some((k, v));
    WrittenLineParse(m, keys, i);
  }

  /** Nothing but the written keys is read back. */
  lemma ReadBackOnlyKeys(m: map<string, string>, keys: seq<string>, k: string)
    requires forall k :: k in m ==> WritableKey(k) && WritableValue(m[k])
    requires forall k :: k in keys <==> k in m
    requires k in Parsed(Render(keys, m))
    ensures k in m
  {
    var r := Render(keys, m);
    ParsedBinding(r, k);
    var i :| 0 <= i < |r| && ParseLine(r[i]).Some? && ParseLine(r[i]).value.0 == k;
    WrittenLineParse(m, keys, i);
  }

  /** `bufio.ScanLines`' treatment of one line: a single trailing carriage return is dropped. */
  function DropCR(line: string): (r: string)
    ensures r == line || line == r + "\r"
    ensures r == line <==> (line == [] || line[|line| - 1] != '\r')
  {
    if line != [] && line[|line| - 1] == '\r' then line[..|line| - 1] else line
  }

  /**
   * The lines a `bufio.Scanner` yields from `text`: split at every '\n', the
   * last line counted even without a final '\n', and no line after a final '\n'.
   */
  function ScanLines(text: string): (lines: seq<string>)
    ensures text == [] <==> lines == []
    decreases |text|
  {
    if text == [] then []
    else match IndexOf(text, "\n")
      case None => [DropCR(text)]
      case Some(i) => [DropCR(text[..i])] + ScanLines(text[i + 1..])
  }

  /** The file `writeProperties` leaves: every line followed by '\n'. */
  function Text(lines: seq<string>): string {
    if lines == [] then [] else lines[0] + "\n" + Text(lines[1..])
  }

  /** A line the scanner gives back as written. */
  predicate Scannable(line: string) {
    '\n' !in line && (line == [] || line[|line| - 1] != '\r')
  }

  /** The first '\n' of `a + "\n" + b` is the one after `a` when `a` has none. */
  lemma FirstNewline(a: string, b: string)
    requires '\n' !in a
    ensures IndexOf(a + "\n" + b, "\n") == Some(|a|)
  {
    var s := a + "\n" + b;
    assert s[|a|..|a| + 1] == "\n";
    forall j | 0 <= j < |a| ensures !OccursAt(s, "\n", j) {
      assert s[j..j + 1] == [a[j]];
    }
    IndexOfAt(s, "\n", |a|);
  }

  /** Scanning the written file gives back its lines. */
  lemma {:induction false} ScanText(lines: seq<string>)
    requires forall i :: 0 <= i < |lines| ==> Scannable(lines[i])
    ensures ScanLines(Text(lines)) == lines
    decreases |lines|
  {
    if lines != [] {
      ScanCons(lines[0], Text(lines[1..]));
      ScanText(lines[1..]);
      assert lines == [lines[0]] + lines[1..];
    }
  }

  /** A scannable line followed by '\n' is scanned as that line, then the rest. */
  lemma ScanCons(l: string, rest: string)
    requires Scannable(l)
    ensures ScanLines(l + "\n" + rest) == [l] + ScanLines(rest)
  {
    var s := l + "\n" + rest;
    FirstNewline(l, rest);
    assert s[..|l|] == l && s[|l| + 1..] == rest;
    assert DropCR(l) == l;
  }

  /** Every line `writeProperties` writes for writable keys and values is scanned back as written. */
  lemma RenderScannable(keys: seq<string>, m: map<string, string>)
    requires forall k :: k in m ==> WritableKey(k) && WritableValue(m[k])
    requires forall k :: k in keys ==> k in m
    ensures forall i :: 0 <= i < |Render(keys, m)| ==> Scannable(Render(keys, m)[i])
  {
    forall i | 0 <= i < |Render(keys, m)| ensures Scannable(Render(keys, m)[i]) {
      RenderLinesFromKeys(keys, m, i);
      if Render(keys, m)[i] != "" {
        var j :| 0 <= j < |keys| && Render(keys, m)[i] == Line(keys[j], m[keys[j]]);
        LineScannable(keys[j], m[keys[j]]);
      }
    }
  }

  lemma LineScannable(k: string, v: string)
    requires WritableKey(k) && WritableValue(v)
    ensures Scannable(Line(k, v))
  {
    var l := Line(k, v);
    assert l[|l| - 1] == if v == [] then '=' else v[|v| - 1];
  }

  /**
   * The file `writeProperties` writes, scanned and read by `readProperties`,
   * gives back the map it was written from.
   */
  lemma WriteThenReadFile(m: map<string, string>)
    requires forall k :: k in m ==> WritableKey(k) && WritableValue(m[k])
    ensures Parsed(ScanLines(Text(Render(SortedKeys(m.Keys), m)))) == m
  {
    RenderScannable(SortedKeys(m.Keys), m);
    ScanText(Render(SortedKeys(m.Keys), m));
    WriteThenRead(m);
  }
}
