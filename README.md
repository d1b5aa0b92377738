# Minecraft CurseForge mod downloader: a Dafny model of its core

The tool reads a mod list: a YAML document whose `Mods` field is a nested
collection of references, and whose `Version` field lists the game versions
wanted. It collects every reference once. A CurseForge project page is
resolved to the newest file listed for a wanted version. Every other
reference is a direct download link. The tool then asks the browser to open
each download address.

This project models the logic of that core in `MinecraftCurseModDownload.py`:

- `flatten.dfy` (module `Flatten`): `flat_gen`, the recursive walk over the
  parsed tree. It works on a tagged value `Scalar | List | Dict` and returns
  the sequence of emitted items, or the `TypeError` raised when a non-string
  scalar is iterated. `RefSet` is the set the caller collects. A mapping
  that is itself the value of a mapping key yields only its keys: whatever
  lies beneath them is never visited (`NestedMappingKeysOnly`).
- `classify.dfy` (module `Classify`): the prefix test
  `re.match(r'https?://www.curseforge.com/minecraft/mc-mods/', ref)`. It is
  written as a small pattern (literal, optional literal, wildcard) with a
  backtracking matcher. Both unescaped dots are wildcards.
- `rewrite.dfy` (module `Rewrite`): the `/files/<digits>` search, the
  left-to-right `re.sub` of `/files/` by `/download/`, and the final
  `.../file` address. The reverse substitution serves as the rewrite's inverse.
- `versions.dfy` (module `Versions`): the version-selection loop of
  `parse_curse_url`. The DOM queries become plain sequences (a `Page` of
  titles and recent-file lists, paired by `zip`). The model has the leftmost
  `\d+\.\d+` search, `max` by epoch (first maximum wins), and the loop as a
  left fold (`Select`) in which the last kept group wins.
- `downloader.dfy` (module `Downloader`): the class
  `MinecraftCurseModDownload`. Its state is the browser, reduced to two logs:
  `pageLoads` (addresses passed to `driver.get`) and `launched` (addresses
  passed to `download_file`). What a page shows is a fixed function `web` of
  its address. `ParseCurseUrl` carries the selection loop with its invariant.
  `Download` flattens, de-duplicates and hands each reference to the browser
  once.
- `strings.dfy`, `results.dfy`: shared helpers (prefix, substring, digits;
  `Option`, `Result`).

`main.py` calls `download_locked_version` and a two-argument
`download(input_file, update)`. Neither exists in
`MinecraftCurseModDownload.py`, so lock files (`download_locked_version`)
and the update flag are not modelled.

## Model

| member | source | states |
|---|---|---|
| Flatten.RefSetMembers | MinecraftCurseModDownload.py:117-123 | the collected set holds every scalar element of the mod list and every key of each of its mapping elements |
| Flatten.FlatItemsAppend | MinecraftCurseModDownload.py:117-125 | flattening a list is the flattening of its first part followed by that of the rest; the earlier part's exception wins |
| Flatten.FlatEntriesAppend | MinecraftCurseModDownload.py:118-121 | the entries of a mapping are flattened one after another, in mapping order |
| Flatten.KeyThenValue | MinecraftCurseModDownload.py:118-121 | in a mapping element, key i is emitted right after the output of the keys before it and is immediately followed by the flattening of its value |
| Flatten.NestedListInlined | MinecraftCurseModDownload.py:124-125 | a nested list adds nothing: `a + [List(b)] + c` flattens like `a + b + c` |
| Flatten.FlatAtoms | MinecraftCurseModDownload.py:115-123 | a list of strings and scalars flattens to exactly those items, one each, and a string element is never split |
| Flatten.FlatIdempotent | MinecraftCurseModDownload.py:114-125 | flattening the output of a flattening gives the same output |
| Flatten.ScalarEmitted | MinecraftCurseModDownload.py:122-123 | every scalar element of a list is among the emitted references |
| Flatten.StringValueSplit | MinecraftCurseModDownload.py:117-121 | a string given as a mapping VALUE is iterated: the key is followed by one reference per character |
| Flatten.ScalarValueFails | MinecraftCurseModDownload.py:117-121 | a null or numeric value under any key of a mapping element of the list makes the whole flattening fail |
| Flatten.ScalarValueError | MinecraftCurseModDownload.py:117-121 | for a one-entry mapping element with a null or numeric value, after elements that flatten, the exception is that scalar's `TypeError`, whatever follows |
| Flatten.NestedMappingKeysOnly | MinecraftCurseModDownload.py:117-121 | a mapping given as the value of a key contributes only its keys; nothing beneath them is flattened |
| Flatten.DuplicatesCollapse | MinecraftCurseModDownload.py:83 | a list given twice yields the same reference set as given once |
| Classify.ProjectIff | MinecraftCurseModDownload.py:85 | a reference is a project reference iff it starts with `https` or `http` followed by the 40 tail characters, each dot matching any non-newline character |
| Classify.ProjectPrefix | MinecraftCurseModDownload.py:85 | the match is anchored at the start only: anything may follow a matching prefix |
| Classify.LookAlikeHost | MinecraftCurseModDownload.py:85 | any two non-newline characters in place of the dots, over both schemes, are accepted |
| Classify.NotHttpNotProject | MinecraftCurseModDownload.py:85 | a reference not starting with `http` is never a project reference (no search inside the string) |
| Rewrite.HasFilesIdAt | MinecraftCurseModDownload.py:93 | the lookup is skipped iff some index starts `/files/` followed by a digit |
| Rewrite.DownloadUrl | MinecraftCurseModDownload.py:104-105 | the result ends in `/file`, and substituting back recovers the input when it had no `/download/` |
| Rewrite.RoundTrip | MinecraftCurseModDownload.py:104 | replacing `/download/` by `/files/` undoes the substitution of an address without `/download/` |
| Rewrite.NoFilesUnchanged | MinecraftCurseModDownload.py:104 | an address without `/files/` is not changed by the substitution |
| Rewrite.OverlapSurvives | MinecraftCurseModDownload.py:104 | occurrences are replaced without overlap: for every suffix `t` not starting `files/`, `/files/files/` + `t` becomes `/download/files/` + the rewrite of `t` |
| Versions.Unzip | MinecraftCurseModDownload.py:95-97 | unzipping the groups gives back the titles and the file lists, both cut to the shorter length, so each title keeps its own files |
| Versions.MatchAt | MinecraftCurseModDownload.py:98 | an anchored match is a `\d+\.\d+` prefix with a greedy second run; no match means no such prefix exists |
| Versions.FirstVersionLeftmost | MinecraftCurseModDownload.py:98 | the search fails iff no position matches, and otherwise returns the match at the first position that matches |
| Versions.FirstMax | MinecraftCurseModDownload.py:101 | the chosen entry has the largest epoch, and every entry before it has a strictly smaller one |
| Versions.SelectOkIff | MinecraftCurseModDownload.py:97-102 | the loop completes iff every title has a version and every kept group has files |
| Versions.SelectFirstError | MinecraftCurseModDownload.py:97-102 | the error raised is that of the first group that is not sound |
| Versions.SelectLastKept | MinecraftCurseModDownload.py:97-102 | the result is the newest file of the last group whose version is configured, or the address given when no group is kept |
| Downloader.CurseSelection | MinecraftCurseModDownload.py:92-105 | for a page address the download address is the rewrite of the last kept group's newest file, or of the page address itself; it fails iff some group is unsound |
| Downloader.NoLookupWithFileId | MinecraftCurseModDownload.py:93-105 | an address naming a file is rewritten the same whatever the web shows, and ends in `/file` |
| Downloader.DirectLink | MinecraftCurseModDownload.py:85-88 | any string reference that the project pattern does not match (written as the negation of `ProjectIff`'s positional form, so plain `http://` and `https://` links included) is handed over verbatim, with no page load |
| Downloader.LaunchedInOrder | MinecraftCurseModDownload.py:83-88 | when every reference is handled, one download is started per reference, in visit order, and the i-th is exactly the address that reference resolves to |
| Downloader.DistinctOnce | MinecraftCurseModDownload.py:83 | in an order without repetitions, every reference occurs exactly once |
| Downloader.MinecraftCurseModDownload.constructor | MinecraftCurseModDownload.py:21-41 | a new downloader drives the given web and has loaded no page and started no download |
| Downloader.MinecraftCurseModDownload.DownloadFile | MinecraftCurseModDownload.py:107-108 | the address is appended to the launched downloads; nothing else changes |
| Downloader.MinecraftCurseModDownload.ParseCurseUrl | MinecraftCurseModDownload.py:92-105 | returns `CurseDownloadUrl`; loads the page once unless the address has a file id; launches nothing |
| Downloader.MinecraftCurseModDownload.DownloadOne | MinecraftCurseModDownload.py:84-88 | the reference's result is `Handle`; it launches that address on success and loads its page when it is a project page without a file id |
| Downloader.MinecraftCurseModDownload.DownloadAll | MinecraftCurseModDownload.py:83-88 | visits the set without repetition; on success every reference is visited and handled; on failure the last visited one raised; both logs are the concatenation of the per-reference effects |
| Downloader.MinecraftCurseModDownload.Download | MinecraftCurseModDownload.py:78-90 | a flattening failure stops the run before any effect; otherwise every distinct reference is handled exactly once, in set order, until the first exception |

## Left out

- Browser and driver setup, driver download and browser options (MinecraftCurseModDownload.py:1-6, 38-76): foreign library calls. The browser is modelled only by its two logs.
- Reading and writing `env_config.yaml` and loading the mod-list YAML (MinecraftCurseModDownload.py:25-36, 79-81): file I/O and YAML parsing. `Download` takes the parsed `Mods` tree and the `Version` list. A missing `Mods` key is not modelled.
- A missing `Version` key raises `KeyError` at MinecraftCurseModDownload.py:99. `config['Version']` is first read at the first zipped group, and only when that group's title contains a `\d+\.\d+` label. Otherwise `.group(0)` on `None` raises `AttributeError` at :98 first. `Download` always receives a `Version` list, so that exception is not modelled.
- `Flatten.Dict` keeps its entries as a sequence and does not rule out a repeated key, which a Python dict cannot hold. YAML loading keeps the last value of a repeated key. Every lemma holds for any entry sequence, so it holds for the unique-key ones in particular.
- DOM queries (`driver.get`, `find_elements`, `get_attribute`, MinecraftCurseModDownload.py:94-102): their results are the `Page` that `web` returns. A missing `abbr` or `a` element, and a `data-epoch` that is not an integer, are not modelled: each entry has an integer epoch and a link.
- Logging (MinecraftCurseModDownload.py:19-23, 84), the ten-second `time.sleep` (:89-90) and `quit` (:110-111): timing and side effects with no result.
- `download_file` puts the address into a JavaScript string (:108). A quote in the address would break that script. The model records the address as given.
- `main.py`: command-line parsing. Lock files (`download_locked_version`) and the update flag have no source in the module, so they are not modelled.
- `\d` in Python 3 matches every Unicode decimal digit. The model (`IsDigit`) accepts ASCII digits only.
- `Version` is a sequence of strings. If the YAML held a plain string there, Python's `in` would test substrings. If it held numbers, no label would match. Neither case is modelled.
- `collections.Iterable` no longer exists from Python 3.10 on. The model follows the older interpreters, where it is an alias of `collections.abc.Iterable`.
- Python set order is arbitrary. `DownloadAll` picks an arbitrary unvisited element, and its contract does not fix the order. Scalars are compared by their literal text, not by Python equality (so `1` and `true` stay distinct).
- YAML binary values (Python `bytes`) are iterable and would be flattened into their byte values. The model has no such scalar.
- The generator's laziness: the caller materialises it into a set before any download starts, so a flattening exception is modelled as a failure of the whole flattening.
