# Prebuilt-update script: a verified model

`update_prebuilts.py` refreshes the Maven prebuilts of an Android source tree.
It fetches artifacts from Google's Maven repository (GMaven). Then it finds
the POM files in the downloaded repository and keeps the latest version of
each library. Last, it writes the argument list for `pom2bp`, which generates
`Android.bp`. This project models the part of that pipeline that chooses and
names things, and proves what it promises:

- **Coordinates.** `maven_to_make` maps a Maven `group:artifact` key, or a bare
  artifact id, to a build target `name` and a directory `path`. At start-up the
  script fills in missing names and paths. An artifact glob
  `group:library:version:ext` is parsed into its parts. The POM and artifact
  URLs are built from those parts (modules `Naming`, `Coordinates`).
- **Discovery.** `detect_artifacts` is modelled in module `Discovery`:
  - each POM is scraped by fixed columns;
  - POMs with missing data, without a `.jar`/`.aar` payload, or without a
    mapping entry are skipped;
  - the mapping key is resolved, preferring `group:artifact` over the bare id;
  - for each key, the artifact with the strictly greatest version is kept.
  The version order is a parameter. Module `Versions` gives one such order:
  numeric components compared lexicographically.
- **File-name pattern.** `artifact_pattern` is modelled in module
  `ArtifactPattern`, together with how `transform_maven_lib` reads name,
  version and type from a payload file name.
- **pom2bp arguments and the commit message.** Module `Pom2bp` models the
  argument list. Module `CommitMessage` models the `append` helper.

Modules `Wrappers` (Option, Result) and `Strings` model the Python string
operations the script uses: `str.replace` of one character, `str.split`,
`sorted` on strings in code-point order, and a separator join.

The directory walk is an input: a sequence of walked files, in visiting order,
each with its root, name and lines. The set of existing paths is an input too.
Diagnostics printed to standard error are collected as a sequence of messages.

## Model

| member | source | states |
|---|---|---|
| Strings.ReplaceChar | update_prebuilts.py:76 | one-character `str.replace`: same length, each occurrence of the old character becomes the new one, every other character is unchanged |
| Strings.Split | update_prebuilts.py:373 | `str.split` on one character: at least one piece, and no piece holds the separator |
| Strings.JoinOfSplit | update_prebuilts.py:373 | joining the pieces of a split with the separator gives the string back |
| Strings.SplitOfJoin | update_prebuilts.py:373 | splitting a join of separator-free pieces gives the pieces back |
| Strings.Sort | update_prebuilts.py:289 | `sorted`: the result is in code-point order and is a permutation of the input |
| Strings.SortedUnique | update_prebuilts.py:289 | two sorted permutations of the same strings are equal, so sorting depends only on the multiset of its input |
| Strings.Join | update_prebuilts.py:292 | `sep.join(parts)`: the first piece is a prefix of the result; `JoinOfSplit` and `SplitOfJoin` make it the inverse of `Split`, and `JoinSnoc` gives its step |
| Strings.JoinSnoc | update_prebuilts.py:292 | joining one more piece adds one separator and that piece at the end |
| Naming.NameForArtifact | update_prebuilts.py:68-76 | every `:` becomes `_`; other characters and the length are unchanged; no `:` remains |
| Naming.PathForArtifact | update_prebuilts.py:79-87 | every `.` and `:` becomes `/`; other characters and the length are unchanged; neither `.` nor `:` remains |
| Naming.PathOfGroupAndLibrary | update_prebuilts.py:79-87 | the path of `group:library` is the group with dots as slashes, a slash, then the library with dots as slashes |
| Naming.WithDefaults | update_prebuilts.py:91-95 | a missing name becomes `NameForArtifact(key)` and a missing path becomes `PathForArtifact(key)`; given values and all other fields are kept |
| Naming.WithDefaultsIdempotent | update_prebuilts.py:91-95 | filling in defaults a second time changes nothing |
| Naming.MavenToMake.constructor | update_prebuilts.py:30-31 | the table starts with distinct keys in insertion order and exactly those keys in its map |
| Naming.MavenToMake.AutoFill | update_prebuilts.py:90-95 | the loop leaves the keys and their order unchanged; each entry becomes `WithDefaults` of its old value; afterwards every entry has a name and a path |
| Coordinates.Parse | update_prebuilts.py:373-385 | succeeds exactly when the glob splits on `:` into four non-empty fields; otherwise fails with the usage message; on success `key` is `group:library`, `group_path` is the group with `.` as `/`, and the four fields rebuild the glob |
| Coordinates.ParseOfFormat | update_prebuilts.py:373-385 | four non-empty, colon-free fields, formatted as a glob and parsed, give back the same fields |
| Coordinates.PomFileUrl | update_prebuilts.py:387-388 | `get_pom_file_url()`: the base URL, the group path, library, version and `library-version.pom` joined by `/`; `PomFileUrlSegments` and `UrlsDifferOnlyInExtension` characterise it |
| Coordinates.ArtifactUrl | update_prebuilts.py:390-391 | `get_artifact_url()`: the POM URL's layout with the extension in place of `pom`; `ArtifactUrlSegments` and `UrlsDifferOnlyInExtension` characterise it |
| Coordinates.UrlsDifferOnlyInExtension | update_prebuilts.py:387-391 | the POM URL ends in `pom`; the artifact URL is the POM URL with that `pom` replaced by the extension |
| Coordinates.PomFileUrlSegments | update_prebuilts.py:387-388 | the POM URL is the base URL, `/`, then path segments: the group's dot-separated parts, the library, the version, `library-version.pom` |
| Coordinates.ArtifactUrlSegments | update_prebuilts.py:390-391 | the same segments as the POM URL, ending in `library-version.ext` |
| Versions.Greater | update_prebuilts.py:248-250 | the stand-in for the `>` on `LooseVersion`: one version is later when its numeric components are lexicographically greater; the lemmas below characterise it |
| Versions.GreaterIsStrictOrder | update_prebuilts.py:248-250 | the component order is irreflexive and transitive, so it may serve as the `>` of latest-wins selection |
| Versions.GreaterTrichotomy | update_prebuilts.py:248-250 | versions with equal components are tied; otherwise exactly one is greater |
| Versions.RaisingAComponent | update_prebuilts.py:248-250 | raising a component after a common prefix gives a greater version, whatever follows |
| Versions.ExtendingIsGreater | update_prebuilts.py:248-250 | adding components at the end gives a greater version |
| Versions.ExampleVersions | update_prebuilts.py:248-250 | `1.2.0` has components `[1, 2, 0]`, and `1.2.1` is greater than `1.2.0` |
| Discovery.ScanLine | update_prebuilts.py:211-217 | one pass of the line loop: the `if`/`elif` chain on the opening tags and the fixed-width slice; `TagOfExact` and `ScanLineEffect` characterise it |
| Discovery.Scan | update_prebuilts.py:206-217 | the three fields start empty and each line is scanned in order; `ScanUntagged` and `ScanLastTagged` characterise it |
| Discovery.Width | update_prebuilts.py:210-217 | the slice width of each tag is the length of its opening tag and of its closing tag plus newline |
| Discovery.TagOfExact | update_prebuilts.py:210-217 | the `if`/`elif` chain picks a tag exactly when the line begins with that tag's opening |
| Discovery.ScanLineEffect | update_prebuilts.py:210-217 | a line beginning with a tag sets that field to the line minus its fixed-width ends, with short lines clamped to empty; a line not beginning with it leaves the field unchanged |
| Discovery.ScanUntagged | update_prebuilts.py:206-217 | a field that no line begins with stays empty |
| Discovery.ScanLastTagged | update_prebuilts.py:209-217 | a field holds the value from the last line beginning with its tag; later lines overwrite earlier ones |
| Discovery.WellFormedLine | update_prebuilts.py:210-217 | on a line `<open>value<close>` with its newline, the scraped value is exactly `value` |
| Discovery.LineWithoutNewline | update_prebuilts.py:210-217 | on a last line without a newline, the scraped value loses its final character |
| Discovery.ReadPom | update_prebuilts.py:206-217 | the line loop yields the three fields of the scan |
| Discovery.IsPom | update_prebuilts.py:204 | `file[-4:] == ".pom"`: the name is at least four characters long and ends in `.pom`; `Classify` states that exactly these names are treated as POMs |
| Discovery.ResolveKey | update_prebuilts.py:238-245 | a key exists exactly when `group:artifact` or the bare id is in the table; it is one of the two; the full key wins |
| Discovery.Payload | update_prebuilts.py:223-235 | there is no payload exactly when neither `<stem>.jar` nor `<stem>.aar` exists; for a root without a trailing slash, the payload is `<stem>.jar` if that exists, else `<stem>.aar`, named relative to the root, and it exists |
| Discovery.TrailingSlashRoot | update_prebuilts.py:223-235 | for any root ending in `/` and a POM directly in it whose `.jar` exists, the relative payload name is `<stem>.jar` without its first character |
| Discovery.Classify | update_prebuilts.py:203-245 | a file is skipped as not a POM, for missing data (with its path) or for lack of payload exactly under that condition; an unmapped POM has no key; a found artifact carries the non-empty scraped fields, the resolved key, the payload, its directory and its repository |
| Discovery.Step | update_prebuilts.py:218-252 | one pass of the walk loop's body on a classified file: a diagnostic for missing data, latest-wins storage for a found artifact, nothing otherwise; `ReplacedOnlyWhenGreater`, `MissingDataSkipped` and `OtherSkipsSilent` characterise it |
| Discovery.Detect | update_prebuilts.py:197-254 | `detect_artifacts` as a left fold of `Step` over the walk from an empty map; `DetectSoundAndComplete`, `DetectLatest`, `TieKeepsFirstSeen` and `GreaterKeptInEitherOrder` characterise it |
| Discovery.DetectSnoc | update_prebuilts.py:201-252 | visiting one more file applies one more loop step and adds at most that file's artifact to the found list |
| Discovery.DetectSoundAndComplete | update_prebuilts.py:238-252 | every stored key is a table key; every stored artifact was found under its key; every found artifact's key is stored |
| Discovery.DetectLatest | update_prebuilts.py:247-252 | for a strict order, no artifact found along the walk has a version greater than the one stored under its key |
| Discovery.ReplacedOnlyWhenGreater | update_prebuilts.py:248-250 | a found artifact replaces the stored one exactly when its key is new or its version is strictly greater; otherwise the map is unchanged; either way no diagnostic is added |
| Discovery.MissingDataSkipped | update_prebuilts.py:218-220 | a POM with an empty field adds no entry and exactly one diagnostic naming its path |
| Discovery.OtherSkipsSilent | update_prebuilts.py:203-245 | a non-POM file, a POM without payload and an unmapped POM change nothing and print nothing |
| Discovery.TieKeepsFirstSeen | update_prebuilts.py:248-250 | under a new key, a second artifact that is not strictly greater leaves the first one stored |
| Discovery.GreaterKeptInEitherOrder | update_prebuilts.py:248-250 | of two artifacts under a new key, the strictly greater one is stored in either visiting order |
| Discovery.DetectArtifacts | update_prebuilts.py:197-254 | one loop over the walked files in visiting order (the repository, directory and file loops flattened into one walk), with `ReadPom`'s line loop inside it, returns the map and diagnostics of the fold `Detect` |
| ArtifactPattern.IsVersion | update_prebuilts.py:106 | the version group `\d+\.\d+\.\d+(?:-\w+\d+)?(?:-[\d.]+)*`, read through the pieces between dashes; the four lemmas below characterise it |
| ArtifactPattern.ReleaseIsVersion | update_prebuilts.py:106 | `MAJ.MIN.PATCH` with digit fields matches the version group |
| ArtifactPattern.TaggedIsVersion | update_prebuilts.py:106 | a release followed by `-` and a word tag ending in a digit matches the version group |
| ArtifactPattern.BuildSuffixIsVersion | update_prebuilts.py:106 | a version followed by `-` and a run of digits and dots matches the version group |
| ArtifactPattern.VersionStartsWithDigit | update_prebuilts.py:106 | every version starts with a digit |
| ArtifactPattern.FirstFrom | update_prebuilts.py:106 | the lazy name: the least name length at which the pattern matches, and no match at any shorter length |
| ArtifactPattern.Match | update_prebuilts.py:106 | `artifact_pattern.match(file)`: no match, or the three groups at the lazy name length `FirstFrom` gives; `MatchSpec` and `MatchOfArtifactName` characterise it |
| ArtifactPattern.MatchSpec | update_prebuilts.py:106 | a match exists exactly when the pattern matches at some name length. The input is `name-version.ext`, possibly with one final newline. The name is non-empty and on one line, the version matches its group, and the extension is `jar` or `aar`. No shorter name matches |
| ArtifactPattern.MatchOfArtifactName | update_prebuilts.py:106 | `name-version.ext` matches with exactly those groups when no dash inside the name is followed by a digit |
| ArtifactPattern.NoEarlierMatch | update_prebuilts.py:106 | the lazy name cannot stop at a dash followed by a non-digit |
| ArtifactPattern.LastThree | update_prebuilts.py:323 | `file[-3:]`: the last three characters, or the whole of a shorter name |
| ArtifactPattern.ReadCoordinates | update_prebuilts.py:320-323 | fails, as the group lookup on no match does, exactly when the pattern rejects the file; otherwise the name is the key, the version is the match's second group (so it matches the version group), the type is `file[-3:]`, and for a file not ending in a newline the type is the match's extension group |
| ArtifactPattern.ReadCoordinatesOfPayload | update_prebuilts.py:320-323 | for a payload named `name-version.ext`, the result holds the key, that version, and the extension as the type |
| Pom2bp.RewriteNames | update_prebuilts.py:289 | the colon keys followed by the bare keys, once sorted, are exactly the sorted key list |
| Pom2bp.RewriteArgFields | update_prebuilts.py:290-291 | a rewrite rule splits on `=` into the flag, the anchored pattern `^key$` and the name |
| Pom2bp.RewriteArgs | update_prebuilts.py:290 | one rule per name, in the given order, to that key's make name |
| Pom2bp.DepsRewriteArgs | update_prebuilts.py:291 | one rule per row of the extra rewrite table, in table order |
| Pom2bp.LibsListReadsBack | update_prebuilts.py:292-293 | a non-empty, comma-free library list, sorted and comma-joined, splits back into the sorted list, a permutation of the libraries |
| Pom2bp.LibsArgs | update_prebuilts.py:292-293 | no more library list arguments than keys; `LibsArgsPerKey` pins the list argument by argument |
| Pom2bp.Declaring | update_prebuilts.py:292-293 | the `if` of the comprehension: every kept key is one of the keys and its entry declares the list; no more kept keys than keys |
| Pom2bp.DeclaringMembers | update_prebuilts.py:292-293 | a key is kept exactly when it is one of the keys and its entry declares the list |
| Pom2bp.DeclaringAppend | update_prebuilts.py:292-293 | the filter keeps key order: the declaring keys of a concatenation are those of the first part followed by those of the second |
| Pom2bp.LibsArgsPerKey | update_prebuilts.py:292-293 | exactly one argument per declaring key, in key order: the i-th argument is the i-th declaring key's `-flag=name=libs` with its make name and sorted, comma-joined libraries |
| Pom2bp.LibsArgsMembers | update_prebuilts.py:292-293 | an argument is present exactly when some key's entry declares that list, and it carries the entry's make name and its sorted, comma-joined libraries |
| Pom2bp.FlagArgs | update_prebuilts.py:294-295 | no more host flag arguments than keys; `FlagArgsPerKey` pins the list argument by argument |
| Pom2bp.Flagged | update_prebuilts.py:294-295 | the `if` of the comprehension: every kept key is one of the keys and its entry has the flag set; no more kept keys than keys |
| Pom2bp.FlaggedMembers | update_prebuilts.py:294-295 | a key is kept exactly when it is one of the keys and its entry has the flag set |
| Pom2bp.FlaggedAppend | update_prebuilts.py:294-295 | the filter keeps key order: the flagged keys of a concatenation are those of the first part followed by those of the second |
| Pom2bp.FlagArgsPerKey | update_prebuilts.py:294-295 | exactly one argument per flagged key, in key order: the i-th argument is `-flag=` followed by the i-th flagged key |
| Pom2bp.FlagArgsMembers | update_prebuilts.py:294-295 | `-flag=key` is present exactly when that key's entry has the flag set |
| Pom2bp.Args | update_prebuilts.py:285-296 | the list `BuildArgs` builds: header, rewrite rules in sorted key order, the extra rewrite table, library lists and host flags in key order, and `.`; `ArgsLayout`, `LibsArgsPerKey`, `FlagArgsPerKey` and the membership lemmas characterise it |
| Pom2bp.ArgsLayout | update_prebuilts.py:285-296 | the list starts with the fixed header and ends with `.`; after the header come one rewrite rule per key in sorted key order, then the extra rewrite table in table order |
| Pom2bp.BuildArgs | update_prebuilts.py:285-296 | the successive extensions build `Args`: the header, the rewrite rules in sorted key order, the extra rewrite table in table order, the library lists and host flags in key order, and `.` |
| CommitMessage.Append | update_prebuilts.py:464-467 | the result ends with the added text; when the first text is non-empty it starts with it and is two characters longer than both together; otherwise it is the added text alone |
| CommitMessage.AppendAllJoins | update_prebuilts.py:464-467 | appending items in turn joins them with `", "`, with empty items at the front leaving no separator |

## Left out

- Network access is not modelled: `get_latest_version` with its group-index fetch and version cache, `fetch_gmaven_artifact` and `_DownloadFileToDisk` (update_prebuilts.py:393-449).
- git and subprocess calls are not modelled, including the `pom2bp` run itself; only its argument list is.
- The filesystem helpers `rm`, `mv`, `cp`, `touch` and `path` are not modelled (update_prebuilts.py:124-194).
- The archive handling in `transform_maven_lib` and `process_aar` is not modelled. Only the name, version and type that `transform_maven_lib` reads from the file name are (update_prebuilts.py:320-323).
- `argparse` setup and the main flow are not modelled.
- `os.walk` is an input sequence of walked files, so the model fixes no visiting order. The existence checks are membership in an input set of paths.
- `LooseVersion` is not reproduced. Discovery takes any comparator, and its latest-wins lemma assumes only a strict order.
- Versions.Components: keeps the numeric runs of a version string and ignores letters, so `1.0.0-alpha01` and `1.0.0-beta01` are tied. `LooseVersion` would compare those letters.
- Strings.IsDigit: `\d` and `\w` are the ASCII classes. Python 3 matches Unicode digits and word characters.
- Discovery.Payload: proves that the stored name is `<stem>.jar` or `<stem>.aar` only for a root without a trailing slash. With a trailing slash, the slice `[len(root) + 1:]` cuts one character too many (`Discovery.TrailingSlashRoot`).
- Discovery.LibraryInfo: stores the version string. `LooseVersion` wraps it in an object; that is not modelled.
- Coordinates.GMavenArtifact: a value. The `version` field is reassigned only by the update flow, which is not part of this model.
- Pom2bp.BuildArgs: requires every key to have an entry with a name. The script relies on the start-up fill-in for this (`Naming.MavenToMake.AutoFill` ensures it); otherwise it would fail with a KeyError.
- Naming.MavenToMake.AutoFill: treats the table's entries as separate values. The script fills in the inner dicts in place, so if two keys shared one dict object, the second key would keep the `name` and `path` filled in for the first; the model has no such aliasing.
- Versions.Greater: is total on version strings. Under Python 3, `LooseVersion` raises `TypeError` when a numeric component meets an alphabetic one at the same position (`1.0.0-alpha01` against `1.0.0-1`), which would abort `detect_artifacts` at update_prebuilts.py:250; a comparator parameter `gt` returning a boolean cannot express that failure.
- Diagnostics go to standard error in the script. Here they are a sequence of message strings.
