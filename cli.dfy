/**
 * The decisions `main` makes from its `-i` and `-o` flags (main.go:26-81,
 * 230-236): which conversion runs, judged by the input's suffix, and which
 * path it writes to. An empty `-o` is replaced by a name derived from the
 * input with `strings.Replace(..., 1)`, which rewrites the FIRST occurrence
 * of the extension, wherever it stands.
 */
module Cli {
  import opened Strings

  /** What `main` goes on to do; `output` is the path the converted file is written to. */
  datatype Plan =
    | MissingInput          // main.go:26-30
    | ToYAML(output: string)        // main.go:32-51
    | ToProperties(output: string)  // main.go:52-75
    | InvalidType           // main.go:77-81

  /** `isPropertiesFile` (main.go:230-232). */
  predicate IsPropertiesFile(input: string) {
    HasSuffix(input, ".properties")
  }

  /** `isYAMLFile` (main.go:234-236). */
  predicate IsYAMLFile(input: string) {
    HasSuffix(input, ".yaml") || HasSuffix(input, ".yml")
  }

  /**
   * The branches of `main` for input path `input` and `-o` value `output`
   * ("" when the flag is absent).
   */
  function Dispatch(input: string, output: string): (p: Plan)
    ensures output != "" && (p.ToYAML? || p.ToProperties?) ==> p.output == output
  {
    if input == "" then MissingInput
    else if IsPropertiesFile(input) then
      ToYAML(if output == "" then ReplaceFirst(input, ".properties", ".yml") else output)
    else if IsYAMLFile(input) then
      var out :=
        if output != "" || !HasSuffix(input, ".yml") then
          (if HasSuffix(input, ".yaml") && output == "" then ReplaceFirst(input, ".yaml", ".properties") else output)
        else ReplaceFirst(input, ".yml", ".properties");
      ToProperties(out)
    else InvalidType
  }

  /** No path ends in both a properties and a YAML extension, so the order of the tests does not matter. */
  lemma KindsExclusive(input: string)
    ensures !(IsPropertiesFile(input) && IsYAMLFile(input))
  {
    if IsPropertiesFile(input) {
      var n := |input|;
      assert input[n - 11..][6] == 'r' && input[n - 11..][7] == 't';
      assert input[n - 5] != '.' && input[n - 4] != '.';
      assert !HasSuffix(input, ".yaml") by {
        assert n >= 5 ==> input[n - 5..][0] == input[n - 5];
      }
      assert !HasSuffix(input, ".yml") by {
        assert n >= 4 ==> input[n - 4..][0] == input[n - 4];
      }
    }
  }

  /**
   * Every non-empty path takes exactly one branch: a properties file becomes
   * YAML, a YAML file becomes properties, anything else is refused.
   */
  lemma DispatchDirection(input: string, output: string)
    requires input != ""
    ensures Dispatch(input, output).ToYAML? <==> IsPropertiesFile(input)
    ensures Dispatch(input, output).ToProperties? <==> IsYAMLFile(input)
    ensures Dispatch(input, output).InvalidType? <==> !IsPropertiesFile(input) && !IsYAMLFile(input)
  {
    KindsExclusive(input);
  }

  /** With `-o` empty, a properties file is written to its name with the first ".properties" replaced by ".yml". */
  lemma DefaultYAMLName(input: string)
    requires IsPropertiesFile(input)
    ensures Dispatch(input, "") == ToYAML(ReplaceFirst(input, ".properties", ".yml"))
  {
  }

  /** With `-o` empty, a ".yml" file is written to its name with the first ".yml" replaced by ".properties". */
  lemma DefaultYmlPropertiesName(input: string)
    requires HasSuffix(input, ".yml")
    ensures Dispatch(input, "") == ToProperties(ReplaceFirst(input, ".yml", ".properties"))
  {
    KindsExclusive(input);
  }

  /** With `-o` empty, a ".yaml" file is written to its name with the first ".yaml" replaced by ".properties". */
  lemma DefaultYamlPropertiesName(input: string)
    requires HasSuffix(input, ".yaml")
    ensures Dispatch(input, "") == ToProperties(ReplaceFirst(input, ".yaml", ".properties"))
  {
    KindsExclusive(input);
    var n := |input|;
    assert !HasSuffix(input, ".yml") by {
      assert input[n - 5..][1] == 'y' && input[n - 5..][2] == 'a';
      assert input[n - 3] == 'a';
      assert input[n - 4..][1] == input[n - 3];
    }
  }

  /**
   * Replacing the first occurrence of an extension swaps the suffix when the
   * extension occurs nowhere earlier (it starts with its only '.').
   */
  lemma ReplaceSuffix(base: string, ext: string, replacement: string)
    requires ext != [] && ext[0] !in ext[1..]
    requires !Contains(base, ext)
    ensures ReplaceFirst(base + ext, ext, replacement) == base + replacement
  {
    var s := base + ext;
    assert OccursAt(s, ext, |base|) by { assert s[|base|..] == ext; }
    forall j | 0 <= j < |base| ensures !OccursAt(s, ext, j) {
      if j + |ext| <= |base| {
        assert base[j..j + |ext|] == s[j..j + |ext|];
        assert !OccursAt(base, ext, j);
      } else {
        var d := |base| - j;
        assert s[j..j + |ext|][d] == s[|base|] == ext[0];
        assert ext[d] == ext[1..][d - 1] != ext[0];
      }
    }
    IndexOfAt(s, ext, |base|);
    assert s[..|base|] == base && s[|base| + |ext|..] == [];
  }

  /** A ".properties" file whose name holds the extension only at the end becomes a ".yml" file of the same stem. */
  lemma DefaultYAMLSwapsExtension(base: string)
    requires !Contains(base, ".properties")
    ensures Dispatch(base + ".properties", "") == ToYAML(base + ".yml")
  {
    EndsWithExtension(base, ".properties");
    DefaultYAMLName(base + ".properties");
    OneDot(".properties");
    ReplaceSuffix(base, ".properties", ".yml");
  }

  // The lemmas below that take a string fixed by `requires p == "..."` could
  // state the literal inline; passing it as a parameter, with each literal fact
  // in a lemma of its own, keeps the solver from unfolding the literal at every
  // step and the proofs small and stable.

  /** The extension's only '.' is its first character. */
  lemma OneDot(ext: string)
    requires ext == ".properties"
    ensures ext != [] && ext[0] !in ext[1..]
  {
    assert ext[1..] == "properties";
  }

  lemma EndsWithExtension(base: string, ext: string)
    ensures HasSuffix(base + ext, ext)
  {
    assert (base + ext)[|base|..] == ext;
  }

  /** A ".yml" file whose name holds the extension only at the end becomes a ".properties" file of the same stem. */
  lemma DefaultYmlSwapsExtension(base: string)
    requires !Contains(base, ".yml")
    ensures Dispatch(base + ".yml", "") == ToProperties(base + ".properties")
  {
    EndsWithExtension(base, ".yml");
    DefaultYmlPropertiesName(base + ".yml");
    ReplaceSuffix(base, ".yml", ".properties");
  }

  /** A ".yaml" file whose name holds the extension only at the end becomes a ".properties" file of the same stem. */
  lemma DefaultYamlSwapsExtension(base: string)
    requires !Contains(base, ".yaml")
    ensures Dispatch(base + ".yaml", "") == ToProperties(base + ".properties")
  {
    EndsWithExtension(base, ".yaml");
    DefaultYamlPropertiesName(base + ".yaml");
    ReplaceSuffix(base, ".yaml", ".properties");
  }

  /**
   * The first occurrence, not the suffix, is replaced: an extension inside a
   * directory name is rewritten and the file's own extension is left alone.
   */
  lemma FirstOccurrenceExample(p: string)
    requires p == "a.properties.d/b.properties"
    ensures Dispatch(p, "") == ToYAML("a.yml.d/b.properties")
  {
    assert HasSuffix(p, ".properties") by { assert p[16..] == ".properties"; }
    DefaultYAMLName(p);
    FirstPropertiesReplaced(p);
  }

  /** The first ".properties" of the example is the one inside the directory name. */
  lemma FirstPropertiesReplaced(p: string)
    requires p == "a.properties.d/b.properties"
    ensures ReplaceFirst(p, ".properties", ".yml") == "a.yml.d/b.properties"
  {
    FirstPropertiesAt(p);
    IndexOfAt(p, ".properties", 1);
    ExampleNames();
  }

  /** The example holds ".properties" at index 1 and not at index 0. */
  lemma FirstPropertiesAt(p: string)
    requires p == "a.properties.d/b.properties"
    ensures OccursAt(p, ".properties", 1) && !OccursAt(p, ".properties", 0)
    ensures p[..1] == "a" && p[12..] == ".d/b.properties"
  {
    ExamplePath(p);
    assert p[1..12] == ".properties";
    assert p[0..11][0] != '.';
  }

  /** The example path, cut where ".properties" first occurs. */
  lemma ExamplePath(p: string)
    requires p == "a.properties.d/b.properties"
    ensures p == "a" + ".properties" + ".d/b.properties"
  {
  }

  /** A ".yml" directory does not fool the ".yaml" test, and an explicit `-o` wins over any default. */
  lemma YamlInYmlDirectoryExample(base: string)
    requires base == "a.yml.d/b"
    ensures Dispatch(base + ".yaml", "") == ToProperties("a.yml.d/b.properties")
    ensures Dispatch(base + ".yaml", "out") == ToProperties("out")
  {
    NoYamlInExample(base);
    DefaultYamlSwapsExtension(base);
    ExampleNames();
    YamlExampleKind(base + ".yaml");
  }

  /** The example's stem holds no ".yaml". */
  lemma NoYamlInExample(base: string)
    requires base == "a.yml.d/b"
    ensures !Contains(base, ".yaml")
  {
    forall j | 0 <= j ensures !OccursAt(base, ".yaml", j) {
      if j + 5 <= |base| {
        assert base[j..j + 5][2] == base[j + 2];
        assert base[j] != '.' || base[j + 2] != 'a';
      }
    }
  }

  /** The example is a ".yaml" file and neither a properties file nor a ".yml" file. */
  lemma YamlExampleKind(y: string)
    requires y == "a.yml.d/b.yaml"
    ensures !IsPropertiesFile(y) && HasSuffix(y, ".yaml") && !HasSuffix(y, ".yml")
  {
    assert y[|y| - 11..][0] == y[3] == 'm';
    assert y[|y| - 5..] == ".yaml";
    assert y[|y| - 4..][0] == y[10] == 'y';
  }

  /** The concatenations the examples need, each proved once. */
  lemma ExampleNames()
    ensures "a" + ".yml" + ".d/b.properties" == "a.yml.d/b.properties"
    ensures "a.yml.d/b" + ".properties" == "a.yml.d/b.properties"
  {
  }
}
