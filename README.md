# i18n-check: the ordered-keys check, in Dafny

i18n-check's ordered-keys check (`i18n-check -ok`) looks at every i18n JSON
file of a project and asks whether the keys of each file's top-level object
are in alphabetical order. Without `--fix` it lists the files that are not
and exits with status 1 if there is any. With `--fix` it rewrites each such
file with its entries sorted by key and succeeds.

The model has four modules:

- `Wrappers` (`wrappers.dfy`): `Option`, for reads that may fail and for dictionary lookups.
- `LexOrder` (`lex_order.dfy`): the order Python's `sorted` uses on `str`, which compares code point by code point and puts a proper prefix first. Dafny's `<=` on strings means "is a prefix of", so this order is written out. It is proved to be a total order, and it is matched against a direct statement of "the first differing character decides".
- `KeySort` (`key_sort.dfy`): a stable insertion sort by a string key. It is the reference for `sorted(...)`. The module proves:
  - the result is sorted;
  - the result is a permutation of the input;
  - sorting a sorted sequence changes nothing;
  - a sorted permutation is unique whenever equal keys belong to equal elements. Because of this, the result does not depend on the algorithm Python actually runs.
- `OrderedKeys` (`ordered_keys.dfy`): the module itself.
  - A JSON object is the sequence of its (key, value) entries in file order.
  - `CheckKeysAreOrdered` is `check_keys_are_ordered`, and `SortEntries` is `dict(sorted(json_data.items()))`.
  - The i18n directory is a `FileStore` class. Its field `files` maps each path to the object the file holds, or to `None` when the file cannot be read. Its set `readOnly` names the paths that cannot be written.
  - `CheckFile`, `FixFile` and `CheckOrderedKeys` are the three file-level functions. `ScanFiles` is the loop of `check_ordered_keys`, kept as a method of its own.
  - The process exit is an `Outcome` that is returned. Only `Unordered(n)` stands for `sys.exit(1)`.

Behaviour kept from the code:
- A file that cannot be read counts as unordered, with an empty sorted-key list.
- In fix mode, such a file is still attempted and the fix fails.
- The closing count in fix mode (`Fixed(n)`) counts every unordered file, including those whose fix failed.
- With no JSON file at all, the run ends with `NoFiles` and no failure.

## Model

| member | source | states |
|---|---|---|
| `LexOrder.LexLeqReflexive` | src/i18n_check/check/ordered_keys.py:49 | every string is `<=` itself |
| `LexOrder.LexLeqAntisymmetric` | src/i18n_check/check/ordered_keys.py:49 | two strings each `<=` the other are equal |
| `LexOrder.LexLeqTransitive` | src/i18n_check/check/ordered_keys.py:49 | string `<=` is transitive |
| `LexOrder.LexLeqTotal` | src/i18n_check/check/ordered_keys.py:49 | any two strings are comparable, so `sorted` has a unique answer |
| `LexOrder.LexLeqMeaning` | src/i18n_check/check/ordered_keys.py:49 | `a <= b` exactly when `a` is a prefix of `b` or, at the first differing position, `a` has the smaller code point |
| `KeySort.SortBy` | src/i18n_check/check/ordered_keys.py:49 | the result of `sorted` is in ascending key order and is a permutation of its input |
| `KeySort.SortedIsFixpoint` | src/i18n_check/check/ordered_keys.py:49-51 | sorting an already sorted sequence returns it unchanged |
| `KeySort.SortedPermutationUnique` | src/i18n_check/check/ordered_keys.py:49 | two sorted permutations of each other are equal when equal keys belong to equal elements; any sorting algorithm gives `SortBy`'s result |
| `KeySort.SortDistinct` | src/i18n_check/check/ordered_keys.py:96 | sorting the items keeps the keys distinct, so the result is again a dict |
| `KeySort.SortCommutes` | src/i18n_check/check/ordered_keys.py:96 | the keys of the items sorted by key are the sorted keys |
| `OrderedKeys.Keys` | src/i18n_check/check/ordered_keys.py:48 | `list(json_data.keys())`: one key per entry, in entry order |
| `OrderedKeys.Get` | tests/checks/test_ordered_keys.py:158-161 | a lookup that succeeds returns a value stored under that key; it fails exactly when the key is absent |
| `OrderedKeys.GetFindsEntry` | tests/checks/test_ordered_keys.py:158-161 | in a dict with distinct keys, the lookup of `k` gives `v` exactly when `(k, v)` is an entry |
| `OrderedKeys.CheckKeysAreOrdered` | src/i18n_check/check/ordered_keys.py:32-51 | the second result is the keys in ascending order, as a permutation; the flag holds exactly when the keys already equal that order, and so exactly when they are sorted |
| `OrderedKeys.SortedKeysAreUnique` | src/i18n_check/check/ordered_keys.py:49-51 | every sorted arrangement of the keys equals the reported sorted keys |
| `OrderedKeys.CheckSmallObjects` | tests/checks/test_ordered_keys.py:74-94 | `{}` is ordered with sorted keys `[]`; a one-key object is ordered with sorted keys `[k]` |
| `OrderedKeys.SortEntries` | src/i18n_check/check/ordered_keys.py:96 | the sorted object has its keys in ascending order, holds exactly the same entries, and keeps keys distinct |
| `OrderedKeys.FixPreservesContent` | src/i18n_check/check/ordered_keys.py:96 | fixing adds, drops and changes no key-to-value pair: same size, same entries, same lookup result for every key |
| `OrderedKeys.CheckAfterFix` | tests/checks/test_ordered_keys.py:152-155 | checking a fixed object reports it ordered, with the same sorted keys as before the fix |
| `OrderedKeys.FixIdempotent` | tests/checks/test_ordered_keys.py:167-196 | fixing an ordered object leaves it unchanged; fixing twice equals fixing once |
| `OrderedKeys.UnorderedFiles` | src/i18n_check/check/ordered_keys.py:130-136 | `unordered_files` holds exactly the listed paths whose check reports unordered, an unreadable file included |
| `OrderedKeys.AfterFixStep` | src/i18n_check/check/ordered_keys.py:138-143 | fixing one more file changes only that file, and only when it can be read and written |
| `OrderedKeys.FixedFilesAreOrdered` | tests/checks/test_ordered_keys.py:239-247 | after fix mode, every listed file that could be read and written is ordered |
| `OrderedKeys.RerunAfterFix` | src/i18n_check/check/ordered_keys.py:132-143 | a second run after fix mode reports exactly the unordered files that could not be read or written |
| `OrderedKeys.FileStore.CheckFile` | src/i18n_check/check/ordered_keys.py:54-75 | a readable file gives the check of its object; an unreadable one gives (False, []) |
| `OrderedKeys.FileStore.FixFile` | src/i18n_check/check/ordered_keys.py:78-105 | success exactly when the file can be read and written; then that file, and nothing else, holds its entries sorted by key; otherwise nothing changes |
| `OrderedKeys.FileStore.ScanFiles` | src/i18n_check/check/ordered_keys.py:130-145 | collects the unordered files in listing order; in fix mode rewrites exactly those it can, and otherwise changes nothing |
| `OrderedKeys.FileStore.CheckOrderedKeys` | src/i18n_check/check/ordered_keys.py:108-167 | no files gives `NoFiles`; without fix, the run fails exactly when some listed file is unordered and changes no file; with fix it never fails, rewrites only the unordered files, and leaves every readable, writable listed file ordered |

## Left out

- Reading and writing files is not modelled. This covers `read_json_file`, `open`, `json.dump` with its indentation, and the trailing newline. A file's content is given as an already-decoded object or `None`, and a write either succeeds or, for a path in `readOnly`, fails.
- JSON decoding is not modelled. A top-level value that is not an object, and duplicate keys in the text (where `json.load` keeps the last), both fall under "cannot be read" or under the distinct-key invariant `FileStore.Valid`.
- Finding the files (`get_all_json_files` with `config_i18n_directory` and `path_separator`) is not modelled. The list of paths is a parameter, and `CheckOrderedKeys` requires it to name each file once, as a directory walk does.
- All printing is left out: the colour markup, the emoji messages, the per-file lines and the singular/plural "file"/"files" word. The `Outcome` carries the count those messages show.
- `sys.exit(1)` is not performed. It becomes the `Unordered` outcome, and `Outcome.Failed` holds only for it.
- JSON values are modelled as strings. Sorting never compares values, because the keys of a dict are distinct, so nested values would change nothing here.
- Python strings may hold lone surrogate code points, but Dafny's `char` cannot. Keys containing them are outside the model.
- The repeat-value check and the unused-key check are not part of this model. Their implementation files are not available: only their tests are. So there is no code to compare against for the case-folded duplicate count, the `_lower` exclusion, or the suggested `CONTENT_REFERENCE` key.
- `OrderedKeys.FileStore.CheckFile`: for a readable file, it states that the sorted keys are a sorted permutation of the file's keys, rather than equating them with `CheckKeysAreOrdered`. `SortedKeysAreUnique` shows that these say the same thing.
