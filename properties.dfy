/**
 * `readProperties` (main.go:84-116): the file is read line by line, blank lines
 * and comments are skipped, every other line is split at its first '=', and
 * the trimmed key is bound to the trimmed value, a later line replacing an
 * earlier one.
 */
module Properties {
  import opened Wrappers
  import opened Strings

  /** What one line contributes (main.go:95-107): nothing, or a trimmed key and a trimmed value. */
  function ParseLine(line: string): (r: Option<(string, string)>)
    ensures r.None? <==>
      var t := TrimSpace(line); t == [] || t[0] == '#' || '=' !in t
    ensures r.Some? ==> '=' !in r.value.0 && Trimmed(r.value.0) && Trimmed(r.value.1)
    ensures r.Some? ==> var t := TrimSpace(line);
      exists i :: 0 <= i < |t| && t[i] == '=' && '=' !in t[..i]
                  && r.value == (TrimSpace(t[..i]), TrimSpace(t[i + 1..]))
  {
    ParseTrimmed(TrimSpace(line))
  }

  /** The same for a line already trimmed: a comment, or a split at the first '='. */
  function ParseTrimmed(t: string): (r: Option<(string, string)>)
    ensures r.None? <==> t == [] || t[0] == '#' || '=' !in t
    ensures r.Some? ==> '=' !in r.value.0 && Trimmed(r.value.0) && Trimmed(r.value.1)
    ensures r.Some? ==>
      exists i :: 0 <= i < |t| && t[i] == '=' && '=' !in t[..i]
                  && r.value == (TrimSpace(t[..i]), TrimSpace(t[i + 1..]))
  {
    CharIndex(t, '=');
    if |t| == 0 || t[0] == '#' then None
    else match IndexOf(t, "=")
      case None => None
      case Some(i) => Some((TrimSpace(t[..i]), TrimSpace(t[i + 1..])))
  }

  /** The properties map after the given results of parsing lines, a later key replacing an earlier one. */
  function Collect(fields: seq<Option<(string, string)>>): map<string, string>
    decreases |fields|
  {
    if fields == [] then map[]
    else
      var m := Collect(fields[..|fields| - 1]);
      match fields[|fields| - 1]
      case None => m
      case Some((k, v)) => m[k := v]
  }

  /** What each line contributes. */
  function Fields(lines: seq<string>): (fields: seq<Option<(string, string)>>)
    ensures |fields| == |lines|
    ensures forall i :: 0 <= i < |lines| ==> fields[i] == ParseLine(lines[i])
  {
    seq(|lines|, i requires 0 <= i < |lines| => ParseLine(lines[i]))
  }

  /** The properties map after the given lines, as the loop of main.go:94-109 leaves it. */
  function Parsed(lines: seq<string>): map<string, string> {
    Collect(Fields(lines))
  }

  /** The loop of main.go:94-109 over the lines the scanner yields. */
  method ReadProperties(lines: seq<string>) returns (properties: map<string, string>)
    ensures properties == Parsed(lines)
  {
    properties := map[];
    for n := 0 to |lines|
      invariant properties == Parsed(lines[..n])
    {
      ParsedNext(lines, n);
      var field := ReadLine(lines[n]);
      if field.Some? {
        properties := properties[field.value.0 := field.value.1];
      }
    }
    assert lines[..|lines|] == lines;
  }

  /**
   * The body of that loop (main.go:95-107) for one scanned line, in the
   * statement form the Go code has. It computes nothing but `ParseLine`, and
   * it lets the loop call that step without reasoning about trimming itself.
   */
  method ReadLine(raw: string) returns (field: Option<(string, string)>)
    ensures field == ParseLine(raw)
  {
    var line := TrimSpace(raw);
    if |line| == 0 || line[0] == '#' {
      return None;
    }
    var eq := IndexOf(line, "=");
    if eq.None? {
      return None;
    }
    var key := TrimSpace(line[..eq.value]);
    var value := TrimSpace(line[eq.value + 1..]);
    field := Some((key, value));
  }

  /** One more line read. */
  lemma ParsedNext(lines: seq<string>, n: nat)
    requires n < |lines|
    ensures Parsed(lines[..n + 1]) ==
      match ParseLine(lines[n])
      case None => Parsed(lines[..n])
      case Some((k, v)) => Parsed(lines[..n])[k := v]
  {
    assert Fields(lines[..n + 1])[..n] == Fields(lines[..n]);
  }

  /** A key is bound exactly when some field names it, and to the value of the last field that does. */
  lemma {:induction false} CollectBinding(fields: seq<Option<(string, string)>>, k: string)
    ensures k in Collect(fields) <==>
      exists i :: 0 <= i < |fields| && fields[i].Some? && fields[i].value.0 == k
    ensures k in Collect(fields) ==>
      exists i :: 0 <= i < |fields| && fields[i] == Some((k, Collect(fields)[k]))
        && forall j :: i < j < |fields| ==> fields[j].None? || fields[j].value.0 != k
    decreases |fields|
  {
    if fields != [] {
      var n := |fields| - 1;
      var init := fields[..n];
      CollectBinding(init, k);
      forall i | 0 <= i < n ensures init[i] == fields[i] { }
      var last := fields[n];
      if last.Some? && last.value.0 == k {
        assert Collect(fields) == Collect(init)[k := last.value.1];
        assert fields[n] == Some((k, Collect(fields)[k]));
      } else {
        assert k in Collect(fields) <==> k in Collect(init);
        if k in Collect(init) {
          assert Collect(fields)[k] == Collect(init)[k];
          var i :| 0 <= i < n && init[i] == Some((k, Collect(init)[k]))
            && forall j :: i < j < n ==> init[j].None? || init[j].value.0 != k;
          assert fields[i] == Some((k, Collect(fields)[k]));
        }
      }
    }
  }

  /** A key is read exactly when some line yields it, and it holds the value of the last such line. */
  lemma ParsedBinding(lines: seq<string>, k: string)
    ensures k in Parsed(lines) <==>
      exists i :: 0 <= i < |lines| && ParseLine(lines[i]).Some? && ParseLine(lines[i]).value.0 == k
    ensures k in Parsed(lines) ==>
      exists i :: 0 <= i < |lines| && ParseLine(lines[i]) == Some((k, Parsed(lines)[k]))
        && forall j :: i < j < |lines| ==> ParseLine(lines[j]).None? || ParseLine(lines[j]).value.0 != k
  {
    CollectBinding(Fields(lines), k);
  }

  /** A line written as `key=value` reads back as that pair when the key and the value survive trimming. */
  lemma ParseLineOfPair(k: string, v: string)
    requires Trimmed(k) && Trimmed(v) && '=' !in k
    requires k == [] || k[0] != '#'
    ensures ParseLine(k + "=" + v) == Some((k, v))
  {
    PairLineTrimmed(k, v);
    ParseTrimmedOfPair(k, v);
  }

  lemma ParseTrimmedOfPair(k: string, v: string)
    requires Trimmed(k) && Trimmed(v) && '=' !in k
    requires k == [] || k[0] != '#'
    ensures ParseTrimmed(k + "=" + v) == Some((k, v))
  {
    var t := k + "=" + v;
    PairLineSplit(k, v);
    assert t[..|k|] == k && t[|k| + 1..] == v;
    assert t[0] != '#' by {
      assert t[0] == if k == [] then '=' else k[0];
    }
  }

  lemma PairLineTrimmed(k: string, v: string)
    requires Trimmed(k) && Trimmed(v)
    ensures TrimSpace(k + "=" + v) == k + "=" + v
  {
    var line := k + "=" + v;
    assert line[|k|] == '=';
    assert Trimmed(line);
  }

  /** The first '=' of `k + "=" + v` is the one after `k` when `k` has none. */
  lemma PairLineSplit(k: string, v: string)
    requires '=' !in k
    ensures IndexOf(k + "=" + v, "=") == Some(|k|)
  {
    var line := k + "=" + v;
    assert line[|k|..|k| + 1] == "=";
    forall j | 0 <= j < |k| ensures !OccursAt(line, "=", j) {
      assert line[j..j + 1] == [k[j]];
    }
    IndexOfAt(line, "=", |k|);
  }

  /** Spaces around the key and the value are trimmed, and only the first '=' splits the line. */
  lemma ParseLineExample()
    ensures ParseLine(" a = b=c ") == Some(("a", "b=c"))
  {
    var line := " a = b=c ";
    assert SkipSpaces(line, 0) == 1 by {
      assert IsSpace(line[0]) && !IsSpace(line[1]);
    }
    assert SkipSpacesBack(line, 1, 9) == 8 by {
      assert IsSpace(line[8]) && !IsSpace(line[7]);
    }
    assert TrimSpace(line) == "a = b=c";
    ParseTrimmedExample();
  }

  lemma ParseTrimmedExample()
    ensures ParseTrimmed("a = b=c") == Some(("a", "b=c"))
  {
    var t := "a = b=c";
    assert t[0..1] == "a" && t[1..2] == " " && t[2..3] == "=";
    IndexOfAt(t, "=", 2);
    assert t[..2] == "a " && t[3..] == " b=c";
    TrimExamples();
  }

  lemma TrimExamples()
    ensures TrimSpace("a ") == "a" && TrimSpace(" b=c") == "b=c"
  {
    assert SkipSpacesBack("a ", 0, 2) == 1;
    assert SkipSpaces(" b=c", 0) == 1;
  }

  /** Comments, lines without '=' and blank lines are skipped. */
  lemma SkippedLineExamples()
    ensures ParseLine("  # a=b") == None
    ensures ParseLine("novalue") == None
    ensures ParseLine(" ") == None
  {
    assert TrimSpace("  # a=b")[0] == '#';
    assert '=' !in TrimSpace("novalue");
  }
}
