# properties-yamlized, modelled in Dafny

`properties-yamlized` is a small command-line converter. It turns a Java-style
`.properties` file into a YAML document and a YAML document back into a
`.properties` file. All of its logic lives in `main.go`:

- **Reading properties** (`readProperties`). Every line is trimmed. Blank lines
  and `#` comments are skipped, and so are lines without `=`. Any other line is
  split at its first `=`, and the trimmed key is bound to the trimmed value. A
  later line replaces an earlier one with the same key.
- **Nesting** (`createNestedMap`). Every key is split on `.`. The walk from the
  root creates the mappings that are missing, and the last segment is bound to
  the value. When a string stands where the walk needs a mapping, Go panics.
- **Flattening** (`flattenYAML`, `flattenMap`). Every string of the nested
  document is stored under the keys on the way to it, joined with `.`.
- **Writing properties** (`writeProperties`). The keys are sorted and each is
  written as `key=value` on its own line. A blank line goes before a key whose
  section (the text before its first `.`) differs from the previous key's
  section, unless that previous section is empty.
- **Dispatch** (`main`, `isPropertiesFile`, `isYAMLFile`). The input's suffix
  chooses the direction. An empty `-o` is replaced by a name built from the
  input with `strings.Replace(..., 1)`. That replaces the FIRST occurrence of the
  extension, which need not be the suffix.

The model has one module per concern:

- `Strings`: the parts of Go's `strings` package that the code relies on.
- `Tree`: the nested document, as `Leaf(value)` or `Branch(entries)`.
  `Tree.ToValue` forgets the entry order and gives the Go value the document
  stands for.
- `Properties`: the reader.
- `Nester`: the nesting step.
- `Flattener`: the flattening step.
- `Ordering`: `sort.Strings`.
- `Writer`: the writer.
- `Cli`: the dispatch.
- `Conversion`: round trips across the modules.

Imperative loops become methods with loop invariants. `ReadProperties`,
`CreateNestedMap`, `FlattenMap` and `WriteLines` are proved equal to
specification functions (`Parsed`, `Nest`, `Flatten`, `Render`), and those
functions carry the lemmas. `CollectKeys` and `SortStrings` are proved against
properties instead. `CollectKeys` gathers every key exactly once. `SortStrings`
returns a sorted permutation of its input.

A Go map is visited in an unspecified order. Wherever the code ranges over a
map, the model takes that order as a parameter: a sequence of pairs, or a
mapping's entry sequence. The lemmas below state where the result does not
depend on that order:

- Nesting: `Nester.NestOrderIrrelevant`, for keys none of which lies under
  another.
- Flattening: `Flattener.FlattenOrderIrrelevant`, for documents without a
  dotted key.
- Writing: `Writer.WriteProperties`, always.

With a dotted key, flattening does depend on the order: `Flattener.DottedKeyCollision`
shows both outcomes, and `Flattener.FlattenAnyTree` states what holds for every
order.

A file is modelled as the sequence of its lines. `Conversion.ScanLines` and
`Conversion.Text` connect lines to the text that `bufio.Scanner` splits and
that `writeProperties` writes.

The blank-line rule is not simply "a blank line wherever the section changes".
The test at main.go:211 also skips the blank line when the previous key's
section is empty, for example after the key `.a`. The model follows the code
(`Writer.EmptySectionExample`).

## Model

| member | source | states |
|---|---|---|
| Strings.TrimSpace | main.go:95 | The result is `s` without its leading and trailing runs of Unicode spaces. It is a slice of `s` with only spaces before and after it, and it has no space at either end. It is empty exactly when every character is a space |
| Strings.IndexOf | main.go:101 | The result is the first index at which the pattern occurs, or None exactly when it occurs nowhere (`SplitN(line, "=", 2)` splits there) |
| Strings.Split | main.go:122 | `strings.Split(key, ".")` gives at least one segment and no segment holds a '.' |
| Strings.JoinSplit | main.go:122 | Joining the segments of a key with '.' gives the key back |
| Strings.SplitJoin | main.go:183-185 | Splitting keys joined with '.' gives the dot-free segments back |
| Strings.JoinInjective | main.go:183-185 | Two different dot-free paths never join to the same flat key |
| Strings.SplitPrefix | main.go:122-132 | The segments of one key are a proper prefix of another key's segments exactly when that key followed by '.' starts the other |
| Strings.ReplaceFirst | main.go:42 | `strings.Replace(s, old, new, 1)` rewrites the first occurrence, and returns the string unchanged when there is none |
| Tree.Find | main.go:129 | Lookup of a key in a mapping: None exactly when no entry has the key, otherwise the value of an entry with that key |
| Tree.Put | main.go:127 | After `m[k] = n`, `k` is bound to `n` and every other key keeps its binding |
| Tree.PutKeeps | main.go:127-130 | Binding a string or an occupied mapping keeps a tree free of empty mappings |
| Tree.SameLeavesSameValue | main.go:118-138 | Two trees without empty mappings below the root that hold the same strings under the same paths are the same Go value. So entry order is the only freedom a nested map has |
| Tree.SameValueSameLeaves | main.go:182 | Two trees that are the same Go value hold the same strings under the same paths, whatever their entry order |
| Tree.PutEntries | main.go:130 | `m[k] = n` adds no entry other than `(k, n)` and keeps keys unique |
| Properties.ParseLine | main.go:95-107 | A line gives nothing exactly when, trimmed, it is empty, starts with '#' or has no '='. Otherwise it gives the trimmed text before and after its first '=', and the key has no '=' |
| Properties.ParseTrimmed | main.go:97-107 | The same, for a line that is already trimmed |
| Properties.Collect | main.go:108 | A later binding of a key replaces an earlier one. Its meaning is stated by `Properties.CollectBinding` |
| Properties.Parsed | main.go:94-108 | The map the lines leave. Its meaning is stated by `Properties.ParsedBinding` |
| Properties.ReadLine | main.go:95-107 | One scanned line yields exactly what `ParseLine` says: nothing for a blank, comment or '='-less line, else the trimmed key and value around the first '=' |
| Properties.ReadProperties | main.go:94-109 | The loop leaves exactly the map that the line-by-line specification `Parsed` gives |
| Properties.ParsedNext | main.go:94-108 | One more line leaves the map unchanged, or binds its key to its value |
| Properties.CollectBinding | main.go:108 | A key is bound exactly when some line yields it, and to the value of the last such line |
| Properties.ParsedBinding | main.go:94-109 | Of the lines: a key is read exactly when some line yields it, with the value of the last line that names it |
| Properties.ParseLineOfPair | main.go:101-107 | The line `k=v` reads back as `(k, v)` when both survive trimming, `k` has no '=' and does not start with '#' |
| Properties.ParseLineExample | main.go:95-107 | `" a = b=c "` reads as key `a` and value `b=c` |
| Properties.SkippedLineExamples | main.go:97-104 | A comment, a line without '=' and a blank line give nothing |
| Nester.Insert | main.go:125-134 | The walk for one key descends into existing mappings or new empty ones. It fails at a string in the way and binds the last segment. Its meaning is stated by `Nester.InsertFails`, `Nester.InsertBinds` and `Nester.InsertKeepsShape` |
| Nester.Nest | main.go:118-138 | The pairs are walked in the order given, and the first failing walk ends nesting. Its meaning is stated by `Nester.NestFails`, `Nester.NestContents`, `Nester.LastKeyWins` and `Nester.NestConflictNamesKey` |
| Nester.InsertFails | main.go:125-134 | The walk for one key fails exactly when it meets a string before the last segment |
| Nester.InsertBinds | main.go:125-134 | A successful walk binds the key's path to the value, drops what lay under that path, and changes nothing else |
| Nester.InsertNoEmpty | main.go:125-134 | A successful walk leaves no empty mapping behind, since every mapping created at line 130 receives the rest of the walk, and the mapping it returns is occupied |
| Nester.NestNoEmpty | main.go:118-138 | A nested tree has no empty mapping below the root, and its root is empty exactly when there are no pairs |
| Nester.InsertKeepsShape | main.go:125-134 | The walk keeps keys unique at every level and adds no dotted key |
| Nester.CreateNestedMap | main.go:118-138 | The loop returns what `Nest` gives: the tree, or the first key whose walk hits a string |
| Nester.NestFailureSticks | main.go:121-135 | Once a key fails, the keys after it change nothing |
| Nester.NestShape | main.go:118-138 | The nested tree has unique keys, no dotted key and no empty mapping below the root. Every string in it comes from a pair with that path and that value |
| Nester.NestFailsPaths | main.go:125-134 | Nesting fails exactly when some key's path lies under the path of an earlier key |
| Nester.NestFails | main.go:129-132 | Nesting fails exactly when an earlier key followed by '.' starts a later key |
| Nester.NestConflictNamesKey | main.go:132 | A failure names the key of some pair. Every pair before it nested, and that pair's own walk failed on the tree they built |
| Nester.LastKeyWins | main.go:127 | The last pair's path holds its value, and paths neither equal to it nor under it are as before |
| Nester.UndottedKeyAtRoot | main.go:126-127 | An undotted last key is bound at the root to a string |
| Nester.NestContents | main.go:118-138 | With distinct keys and none under another, nesting succeeds, every key's path holds its value, and no other string exists. No empty mapping is left anywhere, and the root is empty exactly when there are no pairs |
| Nester.NestOrderIrrelevant | main.go:121 | Two visiting orders of the same such pairs give trees with the same strings under the same paths, and the same Go map (`Tree.ToValue`), whatever order entries are kept in |
| Nester.OverwriteExample | main.go:127 | `a.b=1` then `a=2` silently replaces the mapping `a` by the string `2` |
| Nester.ConflictExample | main.go:132 | `a=2` then `a.b=1` fails on `a.b` |
| Flattener.Flatten | main.go:181-190 | Flattening never removes a key from the properties it is given. What it adds is stated by `Flattener.FlattenAnyTree` and `Flattener.FlattenContents` |
| Flattener.FlattenMap | main.go:181-190 | The loop, with its recursive calls, leaves what the specification `Flatten` gives |
| Flattener.FlattenYAML | main.go:175-179 | Flattening starts from empty properties with an empty prefix |
| Flattener.FlattenContents | main.go:181-190 | For an undotted tree, exactly the joined paths of its strings are added, each holding its string, and every earlier key is kept |
| Flattener.HeadRestDisjoint | main.go:182-188 | In an undotted mapping, no two entries produce the same flat key |
| Flattener.StoresCons | main.go:182-188 | The first entry's keys and the rest's keys together give the mapping's keys |
| Flattener.EmptyMappingStoresNothing | main.go:184-185 | An empty sub-mapping adds no key |
| Flattener.FlattenAnyTree | main.go:181-190 | For any decoded mapping, dotted keys included: the keys are exactly those given plus the joined paths of the strings. Each such key holds the string of some path that joins to it, and every other given key keeps its value |
| Flattener.FlattenOrderIrrelevant | main.go:182 | Two entry orders of the same Go document without dotted keys flatten to the same properties |
| Flattener.DottedKeyCollision | main.go:183-187 | A dotted key `a.b` and a path `a`/`b` collide, and the entry visited last wins |
| Ordering.LessIrreflexive | main.go:205 | No string sorts before itself |
| Ordering.LessTransitive | main.go:205 | The string order is transitive |
| Ordering.LessTotal | main.go:205 | Any two distinct strings are ordered one way or the other |
| Ordering.SortStrings | main.go:205 | The result is sorted and a permutation of the input, and it is strictly ascending when the input has no repeats |
| Ordering.SortedKeys | main.go:205 | A set has a strictly ascending listing holding exactly its members |
| Ordering.StrictlySortedUnique | main.go:205 | Two strictly ascending sequences with the same members are equal, so the sorted output does not depend on the map's order |
| Writer.Section | main.go:209 | A section is the key up to its first '.': it is a '.'-free prefix, followed by a '.' unless it is the whole key |
| Writer.Line | main.go:218 | The `key=value` text written for one key, without its newline. `Properties.ParseLineOfPair` reads it back |
| Writer.BlankBefore | main.go:211 | The test before the i-th key: the section changes and the previous section is not empty. `Writer.RenderAt` places the blank line by it |
| Writer.Render | main.go:207-224 | The lines written for keys in the given order. Its meaning is stated by `Writer.RenderNext`, `Writer.RenderLength`, `Writer.RenderKeyLines` and `Writer.RenderAt` |
| Writer.WriteProperties | main.go:192-228 | The lines written are the rendering of the map's keys in ascending order, whatever order the map yields them in |
| Writer.CollectKeys | main.go:200-203 | Every key of the map is collected exactly once |
| Writer.WriteLines | main.go:207-225 | The loop writes exactly the rendering of the keys, the blank-line test included |
| Writer.RenderNext | main.go:208-224 | One more key adds a blank line if the test of line 211 holds, then its `key=value` line |
| Writer.RenderLength | main.go:208-224 | The number of lines written is the number of keys plus the number of section changes after a non-empty section |
| Writer.RenderKeyLines | main.go:208-224 | Without the blank lines, the output is the `key=value` lines in key order |
| Writer.RenderPrefix | main.go:208-224 | Writing the first keys writes a prefix of the whole output |
| Writer.RenderAt | main.go:211-219 | The i-th key's line stands after the blank lines before it, and a blank line directly precedes it exactly when the test of line 211 holds |
| Writer.NewSectionExample | main.go:211-216 | `a.x` then `b` are separated by a blank line |
| Writer.SameSectionExample | main.go:211 | Keys of one section get no blank line |
| Writer.EmptySectionExample | main.go:211 | No blank line follows a key whose section is empty |
| Writer.TwoKeys | main.go:208-224 | Two keys give their lines, with a blank line between them exactly when the section test holds |
| Cli.IsPropertiesFile | main.go:230-232 | The path ends in `.properties`. `Cli.KindsExclusive` and `Cli.DispatchDirection` state its role |
| Cli.IsYAMLFile | main.go:234-236 | The path ends in `.yaml` or `.yml`. `Cli.KindsExclusive` and `Cli.DispatchDirection` state its role |
| Cli.Dispatch | main.go:26-81 | An explicit `-o` is always the output path of a conversion |
| Cli.KindsExclusive | main.go:230-236 | No path is both a properties file and a YAML file, so the order of the tests does not matter |
| Cli.DispatchDirection | main.go:32-81 | A non-empty input becomes YAML exactly when it ends in `.properties`, becomes properties exactly when it ends in `.yaml` or `.yml`, and is refused otherwise |
| Cli.DefaultYAMLName | main.go:41-43 | With no `-o`, a properties file is written under its name with the first `.properties` replaced by `.yml` |
| Cli.DefaultYmlPropertiesName | main.go:64-66 | With no `-o`, a `.yml` file is written under its name with the first `.yml` replaced by `.properties` |
| Cli.DefaultYamlPropertiesName | main.go:60-63 | With no `-o`, a `.yaml` file is written under its name with the first `.yaml` replaced by `.properties` |
| Cli.ReplaceSuffix | main.go:42 | Replacing the first occurrence swaps the suffix when the extension occurs nowhere else in the name |
| Cli.DefaultYAMLSwapsExtension | main.go:41-43 | `stem.properties` becomes `stem.yml` when the stem holds no `.properties` |
| Cli.DefaultYmlSwapsExtension | main.go:64-66 | `stem.yml` becomes `stem.properties` when the stem holds no `.yml` |
| Cli.DefaultYamlSwapsExtension | main.go:60-63 | `stem.yaml` becomes `stem.properties` when the stem holds no `.yaml` |
| Cli.FirstOccurrenceExample | main.go:41-43 | `a.properties.d/b.properties` is written to `a.yml.d/b.properties`: the directory is renamed and the suffix is kept |
| Cli.YamlInYmlDirectoryExample | main.go:60-66 | `a.yml.d/b.yaml` is written to `a.yml.d/b.properties`, and an explicit `-o out` is used as given |
| Conversion.NestThenFlatten | main.go:118-190 | Nesting a map with no key under another, in any visiting order, and flattening the tree gives the map back |
| Conversion.RoundTripOrderIrrelevant | main.go:121-138 | The nest-then-flatten result is the same for any two visiting orders |
| Conversion.ReadBackAll | main.go:94-108 | Lines written for all keys of a map, in any order, read back as the map when keys and values are writable |
| Conversion.WriteThenRead | main.go:192-228 | Reading back the lines `writeProperties` writes gives the map, when keys survive trimming and have no '=', no newline and no leading '#', and values survive trimming and have no newline |
| Conversion.RenderLinesFromKeys | main.go:208-224 | Every written line is blank or the line of one of the keys |
| Conversion.WrittenLineParse | main.go:94-108 | Every written line reads back as nothing or as one of the written bindings |
| Conversion.ReadBackCovers | main.go:94-108 | Every key of the map reads back with its value |
| Conversion.ReadBackWithin | main.go:94-108 | Nothing outside the map reads back |
| Conversion.ReadBackKey | main.go:94-108 | Every written key reads back with its value |
| Conversion.ReadBackOnlyKeys | main.go:94-108 | Nothing but the written keys reads back |
| Conversion.DropCR | main.go:94 | The scanner drops exactly one final carriage return: the line is kept exactly when it does not end in '\r', and otherwise loses that one character |
| Conversion.ScanLines | main.go:92-94 | The scanner yields no line exactly when the text is empty |
| Conversion.Text | main.go:218-219 | The file text: every written line followed by '\n'. `Conversion.ScanText` shows that scanning it gives the lines back |
| Conversion.ScanText | main.go:92-94 | Scanning lines written each with a final '\n' gives the lines back, when no line holds a '\n' or ends in '\r' |
| Conversion.RenderScannable | main.go:218 | Every line written for writable keys and values scans back as written |
| Conversion.WriteThenReadFile | main.go:199-227 | The file text `writeProperties` writes, scanned and read by `readProperties`, gives the map back |

## Left out

- Flag parsing and usage messages, the progress and error messages, and `os.Exit` (main.go:1-81) are left out. `Cli.Dispatch` keeps only the branch taken and the output path.
- File I/O is left out: opening and creating files, closing them, and the errors these return. A file is modelled as its sequence of lines.
- The `bufio.Scanner` token size limit and `scanner.Err()` (main.go:111-113) are left out. The reader assumes the scanner yields every line.
- `bufio.Writer` errors and `Flush` (main.go:212-227) are left out. Writing always succeeds in the model.
- `writeYAMLWithSpaces` and `readYAML` (main.go:140-173) are left out. They are the yaml.v3 encoder and decoder, which are not part of this model. The model's `Tree` stands for the decoded document.
- Non-string scalars in a YAML document and their `fmt.Sprintf("%v", value)` text (main.go:187) are left out. Every leaf of `Tree` is already a string.
- The random order of Go's map iteration is a parameter. Every loop over a map takes the visiting order as a sequence supplied by the caller.
- Maps are values, not shared references. `createNestedMap` descends through `currentMap` pointers, and `Nester.Insert` rebuilds the path instead. `flattenMap` mutates a shared map, and `Flattener.FlattenMap` takes and returns it.
- Ordering.SortStrings is an insertion sort. `sort.Strings`' own algorithm is not modelled; only its result is (sorted, a permutation).
- Strings are sequences of Unicode code points, not bytes. Code-point order equals the byte order of UTF-8, so `Ordering.Less` matches `sort.Strings`. Invalid UTF-8 is not modelled.
- Nester.CreateNestedMap: the Go panic at main.go:132 becomes a `Failure(Conflict(key))` result, and no partly built map is observable.
- Conversion.WriteThenRead: the round trip is proved only for writable keys and values. A value starting or ending with a space, or a key holding '=', does not come back unchanged.
- Conversion.NestThenFlatten: the round trip is proved only for maps where no key lies under another. Otherwise nesting fails or overwrites, as `Nester.NestFails` and `Nester.OverwriteExample` state.
