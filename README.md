# Configuration differ, modelled in Dafny

`compare_configs(config1, config2)` compares two blocks of `key=value` lines.
It parses each block into a dictionary with a nested `parse_config`, then
reports three lists:

- `added`: the keys found only in the second block, each as `key=value`.
- `removed`: the keys found only in the first block, each as `key=value`.
- `modified`: the keys found in both blocks with different values, each as a
  pair `{old: "key=v1", new: "key=v2"}`.

The project models this in four modules:

- `Text` (`text.dfy`) models the Python string operations the parser uses.
  `Strip` is `str.strip()`, with whitespace as the set `str.isspace()`
  accepts, written out in `IsSpace`. `Split` is `str.split(sep)`, with
  `Join` as its inverse. `Find` is the first-occurrence search at which
  `str.split("=", 1)` cuts.
- `Parser` (`parser.dfy`) models `parse_config`. `ParseLine` decides what a
  single line contributes. `ParseLines` is a fold over the lines, and
  `Parse` is the whole text block. `ParseConfig` is the loop of `parse_config`, which
  updates a map one line at a time; it is proved equal to `Parse`.
- `Diff` (`diff.dfy`) models the comparison. `ListEntries` models the two
  list comprehensions. `ListChanges` models the `modified` loop.
  `CompareMaps` models lines 16-35, and `CompareConfigs` models the whole
  function.
- `Scenario` (`scenario.dfy`) holds the demonstration inputs of the script
  and two small cases.

**Iteration order.** `compare_configs` walks Python sets (`dict2.keys() - dict1.keys()`
and similar), and their iteration order is not fixed. In the model, each
loop over a set picks its next element with `:|`, so any order may occur.
The order a loop took is returned as a ghost sequence. The report is
specified by the predicate `Diff.Describes(d1, d2, report)`: some
enumeration of the added keys, one of the removed keys and one of the
modified keys produces exactly `report`. All report properties are proved
from `Describes`, so they hold for every iteration order.

**Names.** The pair fields `old` and `new` are Dafny keywords. They are
called `before` and `after` in `Diff.Change`. The result dictionary is the
record `Diff.DiffReport(added, removed, modified)`.

**Whole-block strip.** The code strips the whole block before splitting it
into lines (`config_str.strip().split("\n")`, 1st-problem/main.py:5), and
then strips each line (line 6). The model does the same.

## Model

| member | source | states |
|---|---|---|
| `Text.Strip` | 1st-problem/main.py:5-6 | the stripped text has no whitespace at either end |
| `Text.StripIsInfix` | 1st-problem/main.py:6 | the text is whitespace, then its strip, then whitespace: strip only drops surrounding whitespace |
| `Text.StripUnique` | 1st-problem/main.py:6 | any whitespace-free-ended text surrounded only by whitespace is the strip of the whole |
| `Text.StripIdempotent` | 1st-problem/main.py:5-6 | stripping a stripped text changes nothing |
| `Text.StripKeepsOnlyInputChars` | 1st-problem/main.py:9 | a character absent from a text is absent from its strip |
| `Text.Find` | 1st-problem/main.py:8 | the index of the first occurrence of the character, or the length when it is absent |
| `Text.Split` | 1st-problem/main.py:5 | splitting at `\n` gives at least one piece, and no piece holds `\n` |
| `Text.JoinSplit` | 1st-problem/main.py:5 | joining the pieces with the separator gives back the text |
| `Text.SplitJoin` | 1st-problem/main.py:5 | splitting a join of separator-free pieces gives back the pieces |
| `Parser.ParseLine` | 1st-problem/main.py:6-9 | a line contributes nothing exactly when it is blank after stripping or has no `=`; otherwise its key holds no `=`, and key and value are stripped |
| `Parser.ParseLineSplitsAtFirst` | 1st-problem/main.py:8-9 | an accepted line is its key part, then one `=`, then its value part; the key part holds no `=`, and the setting is the two parts stripped |
| `Parser.Apply` | 1st-problem/main.py:9 | a line's setting overwrites or adds its key with its value and leaves every other key alone; a skipped line changes nothing |
| `Parser.Parse` | 1st-problem/main.py:3-10 | the dictionary parsed from a whole block (strip, split at `\n`, parse each line) has keys without `=`, and stripped keys and values |
| `Parser.ParseLines` | 1st-problem/main.py:4-10 | every parsed map has keys without `=`, and stripped keys and values |
| `Parser.ParseLinesSnoc` | 1st-problem/main.py:5-9 | one more line updates the map with that line's setting, if any, and leaves it alone otherwise |
| `Parser.ParseConfig` | 1st-problem/main.py:3-10 | the loop that updates the map line by line computes `Parse` of the text |
| `Parser.DefinedKeys` | 1st-problem/main.py:5-9 | a key is in the parsed map exactly when some line defines it |
| `Parser.LastWriteWins` | 1st-problem/main.py:5-9 | a key's value is the value on the last line that defines it |
| `Parser.SkippedLineIsInert` | 1st-problem/main.py:7 | removing a blank line, or a line without `=`, from anywhere leaves the map unchanged |
| `Parser.BlankTextParsesEmpty` | 1st-problem/main.py:5-7 | an empty or all-whitespace text parses to the empty map |
| `Diff.Entry` | 1st-problem/main.py:17-28 | the text `key=value` is the key, then one `=`, then the value |
| `Diff.AddedKeys` | 1st-problem/main.py:17 | the keys only in the second map: none of them in the first, and together with the first map's keys they make up all keys |
| `Diff.RemovedKeys` | 1st-problem/main.py:20 | the keys only in the first map: none of them in the second, and together with the second map's keys they make up all keys |
| `Diff.ModifiedKeys` | 1st-problem/main.py:24-25 | the modified keys are shared keys, and a shared key is modified exactly when its two values differ |
| `Diff.Describes` | 1st-problem/main.py:16-35 | a report is one the function can return for some iteration order of the three key sets; each of its lists then has one element per key of its set |
| `Diff.ListEntries` | 1st-problem/main.py:17-20 | the list holds the entry `key=value` of each key of the set, each once, in the order the set was walked |
| `Diff.ListChanges` | 1st-problem/main.py:23-29 | the list holds one change for each shared key whose values differ, each once, in the order the keys were walked |
| `Diff.CompareMaps` | 1st-problem/main.py:16-35 | the report is one that `Describes` the two maps |
| `Diff.CompareConfigs` | 1st-problem/main.py:1-35 | the report `Describes` the parsed maps of the two texts |
| `Diff.EnumerationSize` | 1st-problem/main.py:17 | an enumeration of a key set is as long as the set |
| `Diff.AddedEntries` | 1st-problem/main.py:17 | `added` has one entry per key only in the second map, and its entries are exactly `key=value` for those keys with the second map's value |
| `Diff.RemovedEntries` | 1st-problem/main.py:20 | `removed` has one entry per key only in the first map, and its entries are exactly `key=value` for those keys with the first map's value |
| `Diff.ModifiedChanges` | 1st-problem/main.py:23-29 | `modified` has one change per shared key with differing values, and its changes are exactly old entry to new entry for those keys |
| `Diff.KeyPartition` | 1st-problem/main.py:17-29 | the keys of both maps split into added, removed, modified and unchanged keys, and no two of these groups overlap |
| `Diff.EntryKeyOf` | 1st-problem/main.py:17 | the key before the first `=` of `key=value` is the key, when the key holds no `=` |
| `Diff.EntryParsesBack` | 1st-problem/main.py:8-17 | parsing the entry `key=value` of a parsed map gives back that key and value |
| `Diff.ReportKeys` | 1st-problem/main.py:17-29 | for parsed maps, the keys named by `added`, `removed` and `modified` are exactly the added, removed and modified keys; each change names one key on both sides, and its two sides differ |
| `Diff.UnchangedOmitted` | 1st-problem/main.py:24-25 | a key with equal values in both parsed maps is named by no entry of the report |
| `Diff.SelfComparison` | 1st-problem/main.py:17-29 | comparing a map with itself gives empty `added`, `removed` and `modified` |
| `Diff.SwapSymmetry` | 1st-problem/main.py:17-29 | swapping the maps swaps `added` and `removed` and exchanges old and new in every change |
| `Scenario.Example1Parses` | 1st-problem/main.py:39-43 | the first demonstration block parses to hostname=server1, timeout=30, retries=3 |
| `Scenario.Example2Parses` | 1st-problem/main.py:45-49 | the second demonstration block parses to hostname=server2, timeout=30, port=8080 |
| `Scenario.ExampleReport` | 1st-problem/main.py:39-51 | the demonstration report is added `["port=8080"]`, removed `["retries=3"]`, modified `[hostname=server1 to hostname=server2]` |
| `Scenario.DuplicateKeyLastWins` | 1st-problem/main.py:5-9 | `"a=1\na=2"` parses to `{a: "2"}` |
| `Scenario.EmptyInputs` | 1st-problem/main.py:1-35 | two empty texts parse to empty maps and give an empty report |

## Left out

- `print(result)` and running the script at import time (1st-problem/main.py:51-52) are console I/O and are not modelled. Their inputs are modelled in `Scenario`.
- The concrete order of the `added`, `removed` and `modified` lists is not modelled. It is Python's hash-set iteration order, so the model lets any order occur and states every property for all orders.
- Whitespace is Python 3's `str.isspace()` set of code points, written out in `Text.IsSpace`. Changes to that set in other Unicode database versions are not modelled.
- A Python `str` may hold lone surrogate code points (U+D800 to U+DFFF), but a Dafny `char` is a Unicode scalar value. Such strings cannot be given to the model. Behaviour on every string the model can represent is unaffected.
- Arguments that are not strings (such as `None`) are not modelled. The parameters are strings.
- The result is the record `DiffReport`, not a Python dictionary of lists. The pair keys `old` and `new` are the fields `before` and `after`.
