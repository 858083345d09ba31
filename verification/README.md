# NEXT plugin naming and file-name resolution, modelled in Dafny

This project models the pure rules in `next/utils.py` of the NEXT experimentation platform:

- **Namespace keys** (`getDocUID`). Every app instance (an experiment UID) and every algorithm
  instance inside it (an experiment UID plus an algorithm UID) gets its own storage namespace.
  The key is the experiment UID alone, or the experiment UID, a dash and the algorithm UID.
  The UIDs come from `getNewUID` and are 32 lower-case hex characters.
  The model proves that distinct pairs never share a key.
- **App discovery** (`get_supported_apps`). Among the sub-directory names of the apps root, the
  apps are the names that do not start with `.` or `_`, kept in order.
- **Algorithm module paths** (`get_app_alg`). An algorithm is imported from
  `apps.<app_id>.algs.<alg_id>`, so it is always looked up inside its own app's package.
- **File names to target ids** (`filenames_to_ids`). Inside nested lists and tuples of image
  file names, each name becomes the id of the target whose `alt_description` it is. As written
  the function rejects every dict (see "## Findings"); the corrected function, which the rest
  of the model uses, also converts dicts value by value.
  A later target overwrites an earlier one with the same name.
  If any name matches no target, the function raises `ValueError`.

Modules: `Wrappers` (Option, Result), `Strings` (joining two parts with a separator, and
reading them back), `Namespace`, `Catalog` and `TargetIds`.

Python exceptions are `Result` errors (`TargetIds.Error`), not preconditions.
`filenames_to_ids` looks at `filenames[0]` to decide what its argument is, so:

- an empty list raises `IndexError`;
- the output is a tuple exactly when the argument's first element is a tuple, whatever the
  argument itself is;
- `TargetIds.Files` records, for each node, the kind of container it is.

## Model

| member | source | states |
|---|---|---|
| Namespace.DocUid | next/utils.py:76-91 | Without an algorithm UID the key is the experiment UID unchanged. With one, the key is the experiment UID, then `-` at position \|exp_uid\|, then the algorithm UID, and its length is the sum of both lengths plus one. |
| Namespace.HexUidHasNoDelim | next/utils.py:94-101 | A 32-character lower-case hex UID never contains the dash. |
| Namespace.DocUidInjective | next/utils.py:76-91 | If experiment UIDs contain no dash, two keys are equal exactly when their (experiment UID, optional algorithm UID) pairs are equal. An experiment's own key therefore never equals any algorithm's key. |
| Namespace.UidNamespacesDisjoint | next/utils.py:76-101 | For UIDs shaped like those `getNewUID` returns, distinct namespaces never collide, in both directions of the equivalence. |
| Namespace.DocUidExamples | next/utils.py:81-86 | The two keys given in the function's documentation. |
| Catalog.SupportedApps | next/utils.py:40 | Every app returned is non-empty and starts with neither `.` nor `_`. The result is a subsequence of the directory listing: order is kept and nothing is added. |
| Catalog.SupportedAppsCount | next/utils.py:40 | Each name appears among the apps as many times as in the listing if it is not hidden, and zero times if it is hidden. |
| Catalog.SupportedAppsMembers | next/utils.py:40 | A name is an app if and only if it is listed and does not start with `.` or `_`. |
| Catalog.SupportedAppsIdempotent | next/utils.py:40 | Filtering the app list a second time changes nothing. |
| Catalog.SupportedAppsConcat | next/utils.py:40 | Filtering a concatenated listing gives the filtered parts, concatenated in the same order. |
| Catalog.SupportedAppsExample | next/utils.py:40 | A root holding `A`, `B`, `_hidden` and `.git` gives exactly `["A", "B"]`. |
| Catalog.AlgModulePath | next/utils.py:68-70 | The path is the app's `apps.<app_id>.algs.` package followed by the algorithm id, and nothing else. |
| Catalog.AlgModulePathScoped | next/utils.py:58-70 | If app ids contain no dot, an algorithm path lies under `apps.<other>.` exactly when `other` is the algorithm's own app. |
| Catalog.AlgModulePathInjective | next/utils.py:70 | If app ids contain no dot, two (app, algorithm) pairs share a module path exactly when they are the same pair. |
| TargetIds.LastWins | next/utils.py:165 | A dict comprehension over pairs has as its keys exactly the keys that occur. Each key holds the value of the last pair with that key. |
| TargetIds.IdTable | next/utils.py:151-165 | The lookup table contains a file name exactly when some target has that `alt_description`. The name maps to the `target_id` of the last such target. |
| TargetIds.FlatToIds | next/utils.py:165-172 | Raises ValueError exactly when some file name matches no target, and the error holds exactly the set of such names. Otherwise the result has one id per name, in order: the id of the last target with that name. |
| TargetIds.Collect | next/utils.py:159-163 | A comprehension over converted elements succeeds exactly when every element succeeds, and then holds their values in order. Otherwise it raises the error of the first failing element. |
| TargetIds.FilenamesToIds | next/utils.py:155-172 | The corrected function (see "## Findings"), which differs from the code only on dict arguments. On success the output has the input's nesting. List and tuple nodes keep their length. A node becomes a tuple exactly when its first element is a tuple. A dict keeps its key set. Each file name becomes the id of the last target carrying it. A ValueError names only file names that no target carries, and at least one of them. |
| TargetIds.SequenceConverts | next/utils.py:158-161 | A list and a tuple holding the same elements convert alike. Conversion succeeds exactly when every element converts, and element i of the output is element i converted. On failure the error is one of the elements' errors. |
| TargetIds.DictConverts | next/utils.py:162-163 | In the corrected function (see "## Findings"), a dict converts exactly when every value converts. The result has the same keys, and each key holds its own value converted. On failure the error is one of the values' errors. |
| TargetIds.MalformedArgumentFails | next/utils.py:158-163 | In the corrected function (see "## Findings"), as in the code: an empty list or tuple raises IndexError at `filenames[0]`, and a list whose first element is a dict raises AttributeError at `.items()`. |
| TargetIds.FilenamesToIdsAsWritten | next/utils.py:155-172 | The code as written: every string-keyed dict raises KeyError at `filenames[0]`, and a list or tuple whose first element is a dict raises AttributeError. |
| TargetIds.AsWrittenAgreesWithoutDicts | next/utils.py:158-163 | On values that contain no dict, the code as written and the corrected function give the same result. |
| TargetIds.DictCounterexample | next/utils.py:158-163 | `{"train": ["a.png"]}` with a target `a.png` -> `1`: the code as written raises KeyError, while the corrected function returns `{"train": ["1"]}`. |

## Findings

| source | as written | input that shows it | evidently intended | confidence | as-written member | corrected member |
|---|---|---|---|---|---|---|
| next/utils.py:158-163 | The dict test reads `filenames[0]` before checking whether `filenames` is a dict, so a dict with string keys raises `KeyError: 0`. If the first element of a list is a dict, `.items()` is called on the list and raises AttributeError. | `filenames_to_ids({"train": ["a.png"]}, [{"alt_description": "a.png", "target_id": "1"}])` | Test `isinstance(filenames, dict)` before anything is indexed and convert each value: the result here is `{"train": ["1"]}`. Every other argument, a list led by a dict included (AttributeError), is handled as written | high that it raises; medium on the intended fix; not executed | TargetIds.DictCounterexample | TargetIds.DictConverts |

## Left out

- Profiling (`profile_each_line`), coloured console output (`debug_print`), wall-clock timing (`timeit`), the date helpers (`datetimeNow`, `datetime2str`, `str2datetime`) and the Flask cross-origin decorator (`crossdomain`) are left out. They are I/O, clock or foreign library behaviour.
- `getNewUID` and `random_string` draw randomness from the operating system. Only the shape of a UID appears in the model: 32 characters from `0123456789abcdef` (`Namespace.IsHexUid`).
- The directory walk in `get_supported_apps` is file-system I/O. `Catalog.SupportedApps` takes the sub-directory names as a sequence and requires them to be non-empty. The walk never yields an empty name, and the code's `d[0]` would raise on one.
- The `__import__` and `getattr` calls in `get_app` and `get_app_alg`, and the objects they construct, are dynamic module loading and are not modelled. `get_app` imports the fixed module `next.apps.App` whatever `app_id` is, so it has no path rule to model.
- The code validates nothing: it does not normalise identifiers, check UID shape or use typed error kinds. So `Namespace.DocUid` accepts any strings, and the injectivity lemmas state the shape they need as a requirement.
- `Catalog.AlgModulePath`: the app and algorithm ids are taken as already coerced by `str()`. In Python 2 that call raises UnicodeEncodeError on a unicode id holding a non-ASCII character; that error is not modelled.
- `Catalog.AlgModulePath`: the third argument passed to `format` is ignored by the format string and does not appear in the model.
- `TargetIds.Files`: dict keys are strings, which is what an init file gives. A dict holding the integer key 0 could reach the written dict branch; that case is not modelled. A flat group of file names is a list; a tuple of bare file names is not modelled as a separate kind.
- `TargetIds.Target`: a target is its `alt_description` and its `target_id`, both strings. A target lacking either key, which would raise KeyError, is not modelled.
- `TargetIds.Files`: a dict's entries may repeat a key, which no Python dict can do; such values stand for nothing. `TargetIds.DictConverts` requires distinct keys.
- `TargetIds.Files` lists a dict's entries in its iteration order. That order decides which error is raised when several values fail. Python 2 leaves that order to the implementation, so the model takes it as part of the input.
