# farconf overlay engine, command line and name codec in Dafny

This project models the core of farconf, a library that builds configuration
trees from command-line tokens and computes and applies overlays between them.

- `values.dfy` (module `Values`): the tree values. These are None, booleans,
  integers, strings, lists, and dicts as ordered field lists, plus the `Atom`
  wrapper. The module also defines Python's dict operations (`k in d`, `d[k]`,
  `d[k] = v`) and Python's `==` on trees. `==` ignores dict key order and is
  written `Same`.
- `strings.dfy` (module `Strings`): the parts of Python's `str` that farconf
  uses. These are `split`, `join`, `startswith` and `in`.
- `config_ops.dfy` (module `ConfigOps`):
  - `config_merge` applies an overlay to a base tree.
  - `config_diff` computes an overlay from one tree to another.
  - Both take the leaf policy `is_leaf` as a function parameter.
  - The list branch of `config_diff` is also written as a loop (`DiffList`).
- `cli.dfy` (module `Cli`):
  - Key/value splitting and dotted-path assignment with autovivification.
  - The "looks like JSON" guard.
  - `parse_cli_into_dict`: a left-to-right fold over tokens, written both as a
    function and as a loop.
  - `obj_to_cli`, which prints an overlay back as `path=json` tokens.
  - The command-line leaf policy.
- `serialize.dfy` (module `Serialize`):
  - The string logic of `serialize_class_or_function`.
  - The name split of `deserialize_class_or_function`.

The main results are these:

- **Diff/merge round trip.** For every leaf policy given to diff,
  `merge(from, diff(from, to))` equals `to` under Python's `==`, where merge
  uses the default policy. The target must be plain JSON data with distinct
  keys (`ConfigOps.RoundTrip`).
- **Printing and parsing invert each other.** Parsing what `obj_to_cli`
  prints gives the printed dict back (`Cli.ObjToCliRoundTrip`). This needs
  `json.loads` to invert `json.dumps`.

JSON text, YAML files and Python functions are outside the model. They are
reached through function parameters: `loads`, `dumps`, `readYaml` and
`callFn`.

Facts about farconf's behaviour that the model keeps:

- **Atom unwrapping.** Merge strips exactly one `Atom` wrapper from the
  overlay, so `merge(2, Atom(Atom(3)))` is `Atom(3)`
  (farconf/config_ops.py:65-66; tests/test_config_ops.py:29,
  `test_that_atoms_dont_stack`).
- **Default diff policy.** The default diff policy is `_never`
  (farconf/config_ops.py:112). So a changed `_type_` key is not treated as a
  leaf by default, whatever the `config_diff` docstring says
  (farconf/config_ops.py:118-119). The model follows the default argument.
- **Non-container targets.** When `c_from` is a dict or list and `c_to` has
  another shape, diff returns `c_to` itself, not `Atom(c_to)`
  (farconf/config_ops.py:156-157, 174-175).
- **Which policy merge uses.** The round trip holds with the default policy
  in merge. It does not hold when merge uses the same policy as diff:
  `ConfigOps.SamePolicyBreaksRoundTrip` gives a counterexample.
- **The JSON guard.** `INTENDED_JSON` tests for the five characters
  `[ ] { } "` (farconf/cli.py:36-37). Because `.` does not match a newline,
  text containing a newline never counts as intended JSON and is kept as a
  raw string.
- **Error kinds.** Parse errors are distinguished by kind (`CliError`), each
  carrying the token index. Python raises, among others, `CLIParseError`,
  `JSONDecodeError`, `AssertionError`, `ValueError`, `ImportError`,
  `AttributeError`, `OSError` and `yaml.YAMLError`, plus whatever the loaded
  function or `to_dict` raises. In the model:
  - `UnknownFlag`, `NotAnAssignment` and `WholeTreeNotFirst` stand for the
    parser's own refusals;
  - `MalformedJson` stands for `JSONDecodeError`;
  - `BadName` stands for the `ValueError` of a name without exactly one `:`;
  - `NotADict` stands for the `AssertionError` of a whole tree that is not
    a dict (farconf/cli.py:93, 104);
  - `LoadFailed` stands for every other failure: file, YAML, import,
    `getattr` (farconf/serialize.py:46), the call `fn()` and `to_dict`
    (farconf/cli.py:75, 83, 93, 102).

## Model

| member | source | states |
|---|---|---|
| ConfigOps.Never | farconf/config_ops.py:25-26 | the default leaf policy never stops recursion |
| ConfigOps.IsSequenceAndNotStr | farconf/config_ops.py:29-30 | true exactly for a Python sequence that is not a string |
| ConfigOps.MergeAtomUnwraps | farconf/config_ops.py:65-66 | an Atom overlay yields its content with exactly one wrapper removed, e.g. merge(2, Atom(Atom(3))) == Atom(3) |
| ConfigOps.MergeLeafWins | farconf/config_ops.py:68-69 | a non-Atom overlay the policy calls a leaf is returned unchanged |
| ConfigOps.MergeOverwrites | farconf/config_ops.py:80-92 | unless both sides are dicts or both are lists, the non-Atom overlay wins outright |
| ConfigOps.MergeObjects | farconf/config_ops.py:71-79 | merging two dicts gives a dict whose keys are c1's keys in order followed by c2's new keys; a key is present iff it is in c1 or c2; its value is the recursive merge for shared keys, c1's value for c1-only keys and c2's value for c2-only keys |
| ConfigOps.MergeFieldsSpec | farconf/config_ops.py:73-78 | the key-by-key loop keeps every key of the copy, adds c2's keys, and stores at each key the merged, kept or copied value |
| ConfigOps.MergeFieldsKeys | farconf/config_ops.py:73-78 | the loop's result keeps the copy's key order and appends the new keys in c2's order |
| ConfigOps.MergeElemsSpec | farconf/config_ops.py:83-88 | a list merge has length max(len(c1), len(c2)), merges the zipped pairs, and takes the tail from the longer list |
| ConfigOps.MergeListExamples | farconf/config_ops.py:83-88 | merge([2,3],[4]) == [4,3], merge([2,3],[4,5,6]) == [4,5,6], merge([1,2],[]) == [1,2] |
| ConfigOps.DiffAtomExactly | farconf/config_ops.py:130-165 | diff returns an Atom iff the target is an Atom (passed through), or the policy fires on a dict/list source, or keys were removed, or a list shrank; in the other three cases the result is Atom(to) |
| ConfigOps.DiffExamples | farconf/config_ops.py:141-165 | a removed key and a shorter list give Atom(to); an Atom target is passed through |
| ConfigOps.AddedFieldsSpec | farconf/config_ops.py:144-146 | the first part of an object diff holds exactly the keys new in c_to, with c_to's full values |
| ConfigOps.ChangedFieldsSpec | farconf/config_ops.py:148-153 | the second part holds exactly the shared keys whose values differ under ==, with the recursive diff as value |
| ConfigOps.DiffFieldsDistinct | farconf/config_ops.py:144-154 | the two parts of an object diff never name the same key, so the diff is a proper dict |
| ConfigOps.DiffObjects | farconf/config_ops.py:137-154 | an object diff has distinct keys and holds exactly the new keys (full value) and the changed shared keys (recursive diff) |
| ConfigOps.DiffElemsSpec | farconf/config_ops.py:167-173 | a list diff is no longer than c_to; below len(c_from) it holds element diffs, past it c_to's elements; it is cut short only where the remaining suffixes are equal, and never before such a point |
| ConfigOps.DiffList | farconf/config_ops.py:167-173 | the loop that rewrites out[i] and returns out[:i] on an unchanged suffix computes the list diff |
| ConfigOps.DiffOfEqual | farconf/config_ops.py:144-173 | diffing a dict or list with an equal one gives {} or [] |
| ConfigOps.RoundTripFields | farconf/config_ops.py:71-79 | merging the object diff into c_from's fields gives a dict equal to c_to's |
| ConfigOps.RoundTripElems | farconf/config_ops.py:83-88 | merging the list diff into c_from's elements gives a list equal to c_to's |
| ConfigOps.RoundTrip | farconf/config_ops.py:112-113 | for any diff policy, merge(from, diff(from, to)) == to under Python ==, for Atom-free targets with distinct keys |
| ConfigOps.RoundTripDefault | farconf/config_ops.py:112-113 | the round trip with the default policy on both sides |
| ConfigOps.SamePolicyBreaksRoundTrip | farconf/config_ops.py:68-69 | with the policy "y has one key" in both diff and merge, {a:1,b:1} to {a:2,b:1} gives diff {a:2}, which merge takes whole, losing b |
| Serialize.SerializeSpec | farconf/serialize.py:26-36 | serialization fails iff the module is __main__ (MainModule error) or the joined name contains <locals> or <lambda> (Ephemeral error); otherwise it is module + ":" + qualname |
| Serialize.SplitNameSpec | farconf/serialize.py:39-46 | a name splits iff it has exactly one ':' (otherwise the error records the count); the module and the '.'-separated attribute chain rebuild the name |
| Serialize.NameRoundTrip | farconf/serialize.py:33-45 | splitting a serialized name whose parts have no ':' gives back the module and the '.'-pieces of the qualname |
| Cli.CliDiffReplacesLists | farconf/cli.py:147-156 | with the command-line policy, a changed list is replaced by Atom(to) |
| Cli.RoundTripCli | farconf/cli.py:147-156 | the diff computed with the command-line policy, merged with the default policy, gives the target back |
| Cli.EqualsKeyAndValueSpec | farconf/cli.py:18-20 | the key has no '='; with an '=' present, key + "=" + value == s; without one the value is empty |
| Cli.EqualsKeyAndValueOf | farconf/cli.py:18-20 | splitting key + "=" + value for a key without '=' gives (key, value) back |
| Cli.AssignPathReaches | farconf/cli.py:23-33 | after the assignment, following the path's keys reaches exactly the value written |
| Cli.AssignPathOffPath | farconf/cli.py:26-33 | any path that leaves the assigned path sees what it saw before, so siblings at every level are untouched |
| Cli.AssignPathMakesDicts | farconf/cli.py:27-31 | every intermediate segment holds a dict afterwards; where it held no dict before, that dict is fresh and holds only the next segment |
| Cli.AssignPathTwice | farconf/cli.py:23-33 | a second assignment to the same path overrides the first completely |
| Cli.AssignPathWellFormed | farconf/cli.py:23-33 | the assignment keeps every dict's keys distinct |
| Cli.AssignFromKeyvalueSpec | farconf/cli.py:40-50 | JSON text is stored parsed; other text is stored raw unless it looks like JSON, which is the only error |
| Cli.IntendedJsonExamples | farconf/cli.py:36-37 | "[1, 2" and "{\"a\": }" look like JSON; "hello world" and text with a newline do not |
| Cli.ParseCliIntoDict | farconf/cli.py:57-119 | the token loop computes the left-to-right fold Parse |
| Cli.RunAppend | farconf/cli.py:58-59 | the fold over a + b is the fold over a followed by the fold over b from index len(a) |
| Cli.StepSetErrors | farconf/cli.py:60-84 | the four --set flags fail only with malformed JSON, a bad name or a failed load |
| Cli.StepFromErrors | farconf/cli.py:86-106 | a whole-tree flag is refused exactly when it is not the first token |
| Cli.LoadFnErrors | farconf/cli.py:82-83 | loading a function fails only on a bad name or a failed load |
| Cli.StepErrors | farconf/cli.py:60-117 | a token is an unknown flag iff it starts with '-' and has none of the six prefixes; not an assignment iff it has no '-' prefix and no '='; misplaced iff it is a whole-tree flag at index > 0 |
| Cli.ParseRejects | farconf/cli.py:86-116 | once the tokens before index i parse, a bad token at i is the error of the whole parse |
| Cli.SetToken | farconf/cli.py:60-62 | --set=path=json assigns the parsed value at the dotted path |
| Cli.LaterSetWins | farconf/cli.py:57-119 | after a later --set of a path, the path holds that token's value |
| Cli.SetExample | farconf/cli.py:57-119 | ["--set=a.b=2","--set=b.c=3","--set=a.b.c=4"] gives {a:{b:{c:4}}, b:{c:3}} |
| Cli.StepWellFormed | farconf/cli.py:60-117 | every successful token keeps the dict tree's keys distinct |
| Cli.ParseWellFormed | farconf/cli.py:57-119 | a successful parse gives a dict tree with distinct keys |
| Cli.FieldUpdates | farconf/cli.py:130-135 | every update of a dict's fields has a path led by one of the dict's keys |
| Cli.Prefixed | farconf/cli.py:133-134 | each update gains the key in front of its path and keeps its leaf |
| Cli.DotUpdatesPoint | farconf/cli.py:128-139 | every update's path leads through the tree to a value obj_to_cli does not descend into, and its leaf is that value unwrapped |
| Cli.DotUpdatesExample | farconf/cli.py:128-139 | nested dicts become dotted paths in key order; a list, an Atom (unwrapped) and a dict with a dotted key are each one leaf |
| Cli.EmptyDictDropped | farconf/cli.py:128-135 | a nested {} produces no update at all |
| Cli.DotUpdatesClean | farconf/cli.py:128-139 | the updates of a printable tree have paths without '.' or '=' and plain JSON leaves |
| Cli.TokenStep | farconf/cli.py:142-144 | a printed token is read back by the plain path=value branch and writes its leaf at its path |
| Cli.RunTokens | farconf/cli.py:142-144 | parsing printed tokens replays their assignments in order |
| Cli.ApplyFields | farconf/cli.py:130-135 | replaying the updates of a printable dict's fields appends exactly those fields |
| Cli.ObjToCliRoundTrip | farconf/cli.py:128-144 | parsing obj_to_cli(x) gives x for a printable dict x, when loads inverts dumps |
| Cli.ObjToCliWholeValue | farconf/cli.py:136-144 | a top-level value obj_to_cli does not descend into is printed as "=json" and read back under the empty key |

## Left out

- JSON text: `json.loads` and `json.dumps` are function parameters. Where a result needs `loads` to invert `dumps`, this is a precondition.
- YAML file reading: `readYaml` is a parameter. Its failure stands for every file or YAML error (farconf/cli.py:74-75, 91-92).
- Function loading: module import and `getattr` resolution, and the call of the loaded function with `to_dict`, are the parameter `callFn`. Its input is the module and attribute chain that `Serialize.SplitName` produces (farconf/serialize.py:42-47, farconf/cli.py:82-83, 101-103).
- Serialize.SerializeClassOrFunction: takes `__module__` and `__qualname__` as strings; reading them from the class or function object is reflection and is left out.
- The regex engine: `INTENDED_JSON` is written out as a predicate on the text.
- Floats: numbers are integers only.
- Python equality quirks: `True == 1` and `1 == 1.0` are not reproduced. `Same` is Python's `==` on a disjoint tagged union.
- Diff key order: `config_diff` iterates Python sets. The model emits new keys and then changed keys, both in `c_to`'s order. Nothing is proved about this order.
- `update_fns_to_cli`, `typed_dotlist`, `parse_cli`, `from_dict`/`to_dict` and the databind converters: these are user callables, dynamic subclassing, and wrappers around a library not shown.
- Cli.AssignFromDotlist: the in-place walk of a cursor down nested dicts is modelled as a function from the old dict to the new one. Aliasing between stored values and later writes is not modelled. A tree loaded from YAML with anchors and aliases (`--from-file=`, `--set-from-file=`, farconf/cli.py:74-76, 91-95), or built by a function that returns shared objects (farconf/cli.py:83, 102), can hold one dict in two places; Python's in-place write then changes both places and the model changes one. `Cli.AssignPathOffPath` (siblings keep their values) holds only for trees without shared sub-objects.
- Cli.ParseCliIntoDict: the `assert out == {}` checks at farconf/cli.py:94 and 105 are not modelled. They are reached only at index 0, where `out` is always empty.
- Cli.ObjToCliRoundTrip: holds only for printable dicts:
  - keys have no `.` or `=`;
  - top-level keys do not start with `-`;
  - nested dicts are not empty;
  - leaves are plain JSON without Atoms.

  `Cli.EmptyDictDropped` and `Cli.ObjToCliWholeValue` show what happens outside these conditions.
- Cli.DotUpdates: keeps each leaf as a value, and `json.dumps` is applied when the token is printed (`Cli.Token`). `json.dumps` raising on a non-JSON leaf is not modelled.
- ConfigOps.RoundTrip: a target containing Atoms is excluded. Merge strips an Atom that diff passes through, so Python's `==` fails there.
- Cli.DotUpdates: every Atom reached as a leaf, at any depth and whatever it wraps, is unwrapped once, as in the code (farconf/cli.py:137-138). Atoms nested inside that leaf's value are not unwrapped.
