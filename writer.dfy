/**
 * `writeProperties` (main.go:192-228): the keys are sorted, every key is
 * written as `key=value` on a line of its own, and a blank line separates two
 * sections (the part of a key before its first '.') unless the earlier
 * section is empty.
 */
module Writer {
  import opened Wrappers
  import opened Strings
  import opened Ordering

  /** `strings.SplitN(key, ".", 2)[0]` (main.go:209): the key up to its first '.', or all of it. */
  function Section(key: string): (s: string)
    ensures s <= key && '.' !in s
    ensures s == key || key[|s|] == '.'
    decreases |key|
  {
    if key == [] || key[0] == '.' then [] else [key[0]] + Section(key[1..])
  }

  /** The line `fmt.Sprintf("%s=%s\n", key, value)` writes, without its newline. */
  function Line(key: string, value: string): string {
    key + "=" + value
  }

  /**
   * The test of main.go:211 before the `i`-th key: the section changes and the
   * section written last is not empty.
   */
  predicate BlankBefore(keys: seq<string>, i: nat)
    requires i < |keys|
  {
    i > 0 && Section(keys[i]) != Section(keys[i - 1]) && Section(keys[i - 1]) != ""
  }

  /** The lines written for `keys` in this order, each without its "\n"; "" is the lone "\n" of main.go:212. */
  function Render(keys: seq<string>, props: map<string, string>): seq<string>
    requires forall k :: k in keys ==> k in props
    decreases |keys|
  {
    if keys == [] then []
    else
      var n := |keys| - 1;
      Render(keys[..n], props) + (if BlankBefore(keys, n) then [""] else []) + [Line(keys[n], props[keys[n]])]
  }

  /**
   * `writeProperties` without the file: the keys are gathered in whatever
   * order the map yields them, sorted, and written one by one; the result is
   * the sequence of lines handed to the buffered writer.
   */
  method WriteProperties(properties: map<string, string>) returns (lines: seq<string>)
    ensures lines == Render(SortedKeys(properties.Keys), properties)
  {
    var keys := CollectKeys(properties);
    keys := SortStrings(keys);
    assert forall k :: k in keys <==> k in multiset(keys);
    StrictlySortedUnique(keys, SortedKeys(properties.Keys));
    lines := WriteLines(keys, properties);
  }

  /** The loop of main.go:200-203: every key once, in the order the map yields them. */
  method CollectKeys(properties: map<string, string>) returns (keys: seq<string>)
    ensures NoDuplicates(keys)
    ensures forall k :: k in keys <==> k in properties
  {
    keys := [];
    var rest := properties.Keys;
    while rest != {}
      invariant rest <= properties.Keys
      invariant forall k :: k in properties <==> k in keys || k in rest
      invariant forall k :: k in keys ==> k !in rest
      invariant NoDuplicates(keys)
      decreases rest
    {
      var k :| k in rest;
      keys := keys + [k];
      rest := rest - {k};
    }
  }

  /** The loop of main.go:207-225 over the sorted keys. */
  method WriteLines(keys: seq<string>, properties: map<string, string>) returns (lines: seq<string>)
    requires forall k :: k in keys ==> k in properties
    ensures lines == Render(keys, properties)
  {
    lines := [];
    var lastSection := "";
    for i := 0 to |keys|
      invariant lines == Render(keys[..i], properties)
      invariant lastSection == if i == 0 then "" else Section(keys[i - 1])
    {
      var section := Section(keys[i]);
      RenderNext(keys, properties, i);
      if section != lastSection && lastSection != "" {
        lines := lines + [""];
      }
      lines := lines + [Line(keys[i], properties[keys[i]])];
      lastSection := section;
    }
    assert keys[..|keys|] == keys;
  }

  /** One more key written. */
  lemma RenderNext(keys: seq<string>, props: map<string, string>, i: nat)
    requires forall k :: k in keys ==> k in props
    requires i < |keys|
    ensures Render(keys[..i + 1], props) ==
      Render(keys[..i], props) + (if BlankBefore(keys, i) then [""] else []) + [Line(keys[i], props[keys[i]])]
  {
    assert keys[..i + 1][..i] == keys[..i];
  }

  /** The number of blank lines written before the first `n` keys. */
  function CountBlanks(keys: seq<string>, n: nat): nat
    requires n <= |keys|
  {
    if n == 0 then 0 else CountBlanks(keys, n - 1) + (if BlankBefore(keys, n - 1) then 1 else 0)
  }

  /** The lines that carry a key, in order. */
  function NonBlank(lines: seq<string>): seq<string>
    decreases |lines|
  {
    if lines == [] then []
    else NonBlank(lines[..|lines| - 1]) + (if lines[|lines| - 1] == "" then [] else [lines[|lines| - 1]])
  }

  /** One `key=value` line per key, in the order of `keys`. */
  function KeyLines(keys: seq<string>, props: map<string, string>): seq<string>
    requires forall k :: k in keys ==> k in props
  {
    seq(|keys|, i requires 0 <= i < |keys| => Line(keys[i], props[keys[i]]))
  }

  lemma CountBlanksPrefix(keys: seq<string>, m: nat, n: nat)
    requires n <= m <= |keys|
    ensures CountBlanks(keys[..m], n) == CountBlanks(keys, n)
  {
    if n > 0 {
      CountBlanksPrefix(keys, m, n - 1);
      assert keys[..m][n - 1] == keys[n - 1];
      assert n - 1 > 0 ==> keys[..m][n - 2] == keys[n - 2];
    }
  }

  /** The lines written for the first keys start the lines written for all of them. */
  lemma {:induction false} RenderPrefix(keys: seq<string>, props: map<string, string>, m: nat)
    requires forall k :: k in keys ==> k in props
    requires m <= |keys|
    ensures Render(keys[..m], props) <= Render(keys, props)
    decreases |keys|
  {
    if m < |keys| {
      var n := |keys| - 1;
      RenderPrefix(keys[..n], props, m);
      assert keys[..n][..m] == keys[..m];
    } else {
      assert keys[..m] == keys;
    }
  }

  /** As many lines as keys, plus one blank line per change of section (main.go:211-216). */
  lemma {:induction false} RenderLength(keys: seq<string>, props: map<string, string>)
    requires forall k :: k in keys ==> k in props
    ensures |Render(keys, props)| == |keys| + CountBlanks(keys, |keys|)
    decreases |keys|
  {
    if keys != [] {
      var n := |keys| - 1;
      RenderLength(keys[..n], props);
      CountBlanksPrefix(keys, n, n);
    }
  }

  /** Every key is written exactly once, in the order given, and no other line holds text. */
  lemma {:induction false} RenderKeyLines(keys: seq<string>, props: map<string, string>)
    requires forall k :: k in keys ==> k in props
    ensures NonBlank(Render(keys, props)) == KeyLines(keys, props)
    decreases |keys|
  {
    if keys != [] {
      var n := |keys| - 1;
      var line := Line(keys[n], props[keys[n]]);
      RenderKeyLines(keys[..n], props);
      NonBlankStep(Render(keys[..n], props), BlankBefore(keys, n), line);
      KeyLinesLast(keys, props);
    }
  }

  lemma NonBlankStep(before: seq<string>, blank: bool, line: string)
    requires line != ""
    ensures NonBlank(before + (if blank then [""] else []) + [line]) == NonBlank(before) + [line]
  {
    var b := if blank then [""] else [];
    NonBlankAppend(before, b + [line]);
    NonBlankAppend(b, [line]);
    assert NonBlank(b) == [] by { if blank { assert b[..0] == []; } }
    assert NonBlank([line]) == [line] by { assert [line][..0] == []; }
    assert before + b + [line] == before + (b + [line]);
  }

  lemma KeyLinesLast(keys: seq<string>, props: map<string, string>)
    requires forall k :: k in keys ==> k in props
    requires keys != []
    ensures var n := |keys| - 1;
      Line(keys[n], props[keys[n]]) != "" &&
      KeyLines(keys, props) == KeyLines(keys[..n], props) + [Line(keys[n], props[keys[n]])]
  {
    var n := |keys| - 1;
    var line := Line(keys[n], props[keys[n]]);
    assert line[|keys[n]|] == '=';
    var a := KeyLines(keys, props);
    var b := KeyLines(keys[..n], props) + [line];
    assert |a| == |b|;
    forall j | 0 <= j < |a| ensures a[j] == b[j] {
      if j < n {
        assert keys[..n][j] == keys[j];
      }
    }
  }

  lemma {:induction false} NonBlankAppend(a: seq<string>, b: seq<string>)
    ensures NonBlank(a + b) == NonBlank(a) + NonBlank(b)
    decreases |b|
  {
    if b == [] {
      assert a + b == a;
    } else {
      var n := |b| - 1;
      assert (a + b)[..|a + b| - 1] == a + b[..n];
      NonBlankAppend(a, b[..n]);
    }
  }

  /**
   * The line of the `i`-th key stands after the lines of the keys before it and
   * the blank lines among them, and a blank line precedes it exactly when the
   * test of main.go:211 holds.
   */
  lemma RenderAt(keys: seq<string>, props: map<string, string>, i: nat)
    requires forall k :: k in keys ==> k in props
    requires i < |keys|
    ensures var r := Render(keys, props); var pos := i + CountBlanks(keys, i + 1);
      pos < |r| && r[pos] == Line(keys[i], props[keys[i]])
      && (pos > 0 && r[pos - 1] == "" <==> BlankBefore(keys, i))
  {
    RenderPrefix(keys, props, i + 1);
    RenderTail(keys, props, i);
  }

  /** The lines written up to the `i`-th key end with its line, after a blank line exactly when the test holds. */
  lemma RenderTail(keys: seq<string>, props: map<string, string>, i: nat)
    requires forall k :: k in keys ==> k in props
    requires i < |keys|
    ensures var r := Render(keys[..i + 1], props); var pos := i + CountBlanks(keys, i + 1);
      |r| == pos + 1 && r[pos] == Line(keys[i], props[keys[i]])
      && (pos > 0 && r[pos - 1] == "" <==> BlankBefore(keys, i))
  {
    RenderLength(keys[..i + 1], props);
    CountBlanksPrefix(keys, i + 1, i + 1);
    RenderNext(keys, props, i);
    if i > 0 && !BlankBefore(keys, i) {
      LastLineNotBlank(keys, props, i);
    }
  }

  /** The last line written for a non-empty prefix of the keys is a `key=value` line. */
  lemma LastLineNotBlank(keys: seq<string>, props: map<string, string>, i: nat)
    requires forall k :: k in keys ==> k in props
    requires 0 < i <= |keys|
    ensures var prev := Render(keys[..i], props); prev != [] && prev[|prev| - 1] != ""
  {
    RenderNext(keys, props, i - 1);
    var l := Line(keys[i - 1], props[keys[i - 1]]);
    assert l[|keys[i - 1]|] == '=';
  }

  /** A new section after a dotted key gets a blank line (main.go:211-213). */
  lemma NewSectionExample()
    ensures Render(["a.x", "b"], map["a.x" := "1", "b" := "2"]) == ["a.x=1", "", "b=2"]
  {
    assert Section("a.x") == "a" by { assert "a.x"[1..] == ".x"; }
    assert Section("b") == "b" by { assert "b"[1..] == []; }
    TwoKeys("a.x", "b", "1", "2");
    assert BlankBefore(["a.x", "b"], 1);
    assert "a.x" + "=" + "1" == "a.x=1" && "b" + "=" + "2" == "b=2";
  }

  /** Keys of the same section are written without a blank line between them. */
  lemma SameSectionExample()
    ensures Render(["a.x", "a.y"], map["a.x" := "1", "a.y" := "2"]) == ["a.x=1", "a.y=2"]
  {
    assert Section("a.x") == "a" && Section("a.y") == "a" by {
      assert "a.x"[1..] == ".x" && "a.y"[1..] == ".y";
    }
    TwoKeys("a.x", "a.y", "1", "2");
    assert !BlankBefore(["a.x", "a.y"], 1);
    assert "a.x" + "=" + "1" == "a.x=1" && "a.y" + "=" + "2" == "a.y=2";
  }

  /** A key starting with '.' has an empty section, after which no blank line is written. */
  lemma EmptySectionExample()
    ensures Render([".a", "b"], map[".a" := "1", "b" := "2"]) == [".a=1", "b=2"]
  {
    assert Section(".a") == "";
    TwoKeys(".a", "b", "1", "2");
    assert !BlankBefore([".a", "b"], 1);
    assert ".a" + "=" + "1" == ".a=1" && "b" + "=" + "2" == "b=2";
  }

  lemma TwoKeys(k1: string, k2: string, v1: string, v2: string)
    requires k1 != k2
    ensures Render([k1, k2], map[k1 := v1, k2 := v2]) ==
      [k1 + "=" + v1] + (if BlankBefore([k1, k2], 1) then [""] else []) + [k2 + "=" + v2]
  {
    var m := map[k1 := v1, k2 := v2];
    assert m[k1] == v1 && m[k2] == v2;
    assert [k1, k2][..1] == [k1];
    assert [k1][..0] == [];
    assert !BlankBefore([k1], 0);
    assert Render([k1], m) == [Line(k1, v1)];
  }
}
