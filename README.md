# VictoryCMS bootstrap layer, modelled in Dafny

This project models the bootstrap layer of VictoryCMS, a PHP application
framework. The layer has three parts:

- the **Registry** (`Vcms\Registry`): one map from keys to nodes. Each node
  holds a value and a read-only flag. `add` merges into a list, `set`
  replaces, `attach` binds, `get`, `isKey` and `isReadOnly` query, `clear`
  removes. A read-only entry is never changed or removed, and every attempt
  to change or remove one throws.
- the **LoadManager** (`Vcms\LoadManager`): reads a JSON configuration file
  and follows its `load` directives recursively. A directive is skipped when
  its path is already in the Registry's `load` list.
- the **Autoloader** (`Vcms\Autoloader`): normalises paths (`truepath`),
  indexes the PHP files of each registered directory, and resolves a class
  name to a file. It looks the class up by key first, and can fall back to a
  pattern search. The layer also includes the `FileUtils` helpers and the
  older `VictoryCMS` versions of the same three components.

Each file of the core becomes one module:

| module | file | source |
|---|---|---|
| `Values` | values.dfy | PHP values, truthiness, loose `==`, string conversion, and the error kinds |
| `Environment` | environment.dfy | the host: working directory, symbolic links, `realpath`, file contents and their decoding, directory walks |
| `VcmsRegistry` | registry.dfy | lib/Vcms-Registry.php |
| `RegistryNodes` | registry_node.dfy | lib/RegistryNode.php |
| `Paths` | paths.dfy | `truepath` in lib/Vcms-Autoloader.php |
| `ClassPattern` | class_pattern.dfy | `getPattern` and its regular expression, in lib/Vcms-Autoloader.php |
| `VcmsAutoloader` | autoloader.dfy | lib/Vcms-Autoloader.php |
| `VcmsLoadManager` | load_manager.dfy | lib/Vcms-LoadManager.php |
| `FileUtils` | file_utils.dfy | lib/Utilities/FileUtils.php |
| `LegacyRegistry` | legacy_registry.dfy | lib/Registry.php |
| `LegacyLoadManager` | legacy_load_manager.dfy | lib/LoadManager.php |
| `LegacyAutoloader` | legacy_autoloader.dfy | lib/AutoLoader.php |

How the modules are built:

- Static singletons become explicit objects: `Registry`, `Autoloader`,
  `LoadManager` and `AutoLoader` classes. Their fields are updated in place.
- Each state-changing method is proved equal to a pure function of the old
  state:
  - `AddStep`, `SetStep`, `AttachStep` and `ClearStep` for the Registry;
  - `LoadFile` for the loader;
  - `IndexOf`, `Rescan` and `FirstHit` for the Autoloader.
- The lemmas prove the listed properties about those functions.
- The loader's recursion is specified by four mutually recursive functions.
  Their termination measure is the number of paths, drawn from the decoded
  documents, that are not yet in the Registry's `load` list. Every recursive
  load first appends one such path.

Some behaviours of the code worth stating plainly:

- No `##` comment lines are stripped before decoding.
- Keys other than `load` are never added to the Registry (see Findings).
  Where the intended code does add them, they default to writable.
- `add` refuses only a null value, not an empty one.
- The direct class lookup folds only `\` into `-`, not `.` (`DirectKeyExample`).
- `truepath` of an array is the root: PHP 7's `strpos` and `explode` warn
  and return null on an array, so no part survives (`ArrayPathIsRoot`).

## Model

| member | source | states |
|---|---|---|
| `VcmsRegistry.ArgumentError` | lib/Vcms-Registry.php:93-98 | `add`, `attach` and `set` refuse exactly a null key, a null value or a non-boolean `readonly`, always with DataException |
| `VcmsRegistry.AddStep` | lib/Vcms-Registry.php:90-117 | bad arguments: DataException, map unchanged. Read-only key: OverwriteException, map unchanged. Otherwise only that key changes: a fresh key gets the wrapped value, an existing one gets `array_merge` of old and wrapped new value, and the node takes the caller's flag. Read-only entries survive |
| `VcmsRegistry.AttachStep` | lib/Vcms-Registry.php:133-152 | same refusals (the Overwrite names the value). On success only that key changes, and it is bound to the value as a non-read-only attached node |
| `VcmsRegistry.SetStep` | lib/Vcms-Registry.php:168-185 | same refusals. On success only that key changes, and it holds exactly the value with the caller's flag |
| `VcmsRegistry.ClearStep` | lib/Vcms-Registry.php:263-277 | absent key: "does not exist". Read-only key: Overwrite. Both leave the map unchanged. Otherwise exactly that key is removed and every other entry is unchanged |
| `VcmsRegistry.Lookup` | lib/Vcms-Registry.php:198-208 | `get` succeeds exactly for a present key and returns its value; it throws "does not exist" otherwise |
| `VcmsRegistry.ReadOnlyFlag` | lib/Vcms-Registry.php:218-231 | `isReadOnly` throws DataException for a null key and "does not exist" for an absent key; otherwise it returns the node's flag |
| `VcmsRegistry.AbsentKey` | lib/Vcms-Registry.php:198-248 | for an unbound key `get` and `isReadOnly` throw and `isKey` is false; `isKey` is also false for a null or empty key |
| `VcmsRegistry.ReadOnlyEntriesSurvive` | lib/Vcms-Registry.php:90-277 | after any sequence of `add`, `attach`, `set` and `clear` calls, every read-only entry is still present with the same value and flag |
| `VcmsRegistry.TouchingReadOnlyThrows` | lib/Vcms-Registry.php:102-273 | every mutating call on a read-only key fails and leaves the map unchanged |
| `VcmsRegistry.SetThenGet` | lib/Vcms-Registry.php:168-208 | `set(k, v)` on a writable key passes, and `get(k)` then returns exactly `v` |
| `VcmsRegistry.AddFresh` | lib/Vcms-Registry.php:111-115 | `add` on a fresh key stores the list itself, or a one-element list holding the scalar |
| `VcmsRegistry.AddAppends` | lib/Vcms-Registry.php:102-115 | `add` on a writable list stores old items ++ new items, in that order, with the caller's flag |
| `VcmsRegistry.Promotion` | lib/Vcms-Registry.php:115-180 | `add` or `set` with `readonly = true` makes a writable key read-only |
| `VcmsRegistry.ClearThenGet` | lib/Vcms-Registry.php:238-277 | after a successful `clear`, `isKey` is false and `get` throws |
| `VcmsRegistry.Registry.Add` | lib/Vcms-Registry.php:90-117 | the map and outcome afterwards are those of `AddStep` |
| `VcmsRegistry.Registry.Attach` | lib/Vcms-Registry.php:133-152 | the map and outcome afterwards are those of `AttachStep` |
| `VcmsRegistry.Registry.Set` | lib/Vcms-Registry.php:168-185 | the map and outcome afterwards are those of `SetStep` |
| `VcmsRegistry.Registry.Get` | lib/Vcms-Registry.php:198-208 | answers `Lookup` on the current map |
| `VcmsRegistry.Registry.IsReadOnly` | lib/Vcms-Registry.php:218-231 | answers `ReadOnlyFlag` on the current map |
| `VcmsRegistry.Registry.IsKey` | lib/Vcms-Registry.php:238-249 | true exactly for a non-null, non-empty key bound in the map |
| `VcmsRegistry.Registry.Clear` | lib/Vcms-Registry.php:263-277 | the map and outcome afterwards are those of `ClearStep` |
| `RegistryNodes.RegistryNode.constructor` | lib/RegistryNode.php:52-60 | stores the value as given; the flag is true exactly when the argument is loosely true |
| `RegistryNodes.RegistryNode.GetValue` | lib/RegistryNode.php:67-70 | returns the stored value |
| `RegistryNodes.RegistryNode.SetValue` | lib/RegistryNode.php:78-85 | a writable node takes the value and answers true; a read-only node keeps its value and answers false; the flag never changes |
| `RegistryNodes.RegistryNode.SetReadOnly` | lib/RegistryNode.php:91-94 | afterwards the node is read-only and its value is unchanged |
| `RegistryNodes.RegistryNode.IsReadOnly` | lib/RegistryNode.php:101-104 | returns the flag |
| `Paths.Truepath` | lib/Vcms-Autoloader.php:239-269 | the push/pop loop computes `Resolved`: the lexical normal form, replaced by its link target when it names a symbolic link |
| `Paths.LexicalIsCanonical` | lib/Vcms-Autoloader.php:250-263 | the lexical result starts with `/`, has no empty, `.` or `..` segment and no `\`, and has no trailing separator unless it is the root |
| `Paths.CanonicalIsFixed` | lib/Vcms-Autoloader.php:244-263 | a canonical path normalises to itself, whatever the working directory |
| `Paths.LexicalIdempotent` | lib/Vcms-Autoloader.php:243-263 | normalising a normalised path gives it back |
| `Paths.RelativeToCwd` | lib/Vcms-Autoloader.php:244-248 | a path with no `:` that does not start with `/` normalises as the working directory, `/`, then the path |
| `Paths.DotSegmentVanishes` | lib/Vcms-Autoloader.php:254-256 | `x/./y` normalises like `x/y` |
| `Paths.DotDotCancels` | lib/Vcms-Autoloader.php:257-258 | `x/s/../y` normalises like `x/y` for a clean segment `s` |
| `Paths.DotDotAtRoot` | lib/Vcms-Autoloader.php:257-258 | `..` at the root is a no-op: `/../y` normalises like `/y` |
| `Paths.DotsExample` | lib/Vcms-Autoloader.php:243-263 | `a/./b/../c` normalises like `a/c` for every prefix `a` |
| `Paths.BackslashSeparates` | lib/Vcms-Autoloader.php:250-251 | `\` separates segments exactly as `/` does |
| `ClassPattern.PatternSpellsSegments` | lib/Vcms-Autoloader.php:171-184 | the pattern is the fixed head, the trimmed class's segments (one leading `\` dropped) joined by `(\.\|-)+`, then the fixed tail |
| `ClassPattern.RunThenBodyExactly` | lib/Vcms-Autoloader.php:49-50 | a separator step accepts exactly a non-empty run of `.`/`-` followed by the rest of the segments, as `(\.\|-)+` does |
| `ClassPattern.SomeSuffixExactly` | lib/Vcms-Autoloader.php:55 | trying the suffixes in turn accepts exactly when one of them, from the given one on, fits |
| `ClassPattern.MatchesExactly` | lib/Vcms-Autoloader.php:55 | a name matches exactly when some optional `class.` prefix and some `.class`/`.inc` suffix of up to two parts surround a body matching the segments |
| `ClassPattern.DecoratedNameMatches` | lib/Vcms-Autoloader.php:49-55 | every name made of an optional `class.`, the segments separated by runs of `.`/`-`, and up to two `.class`/`.inc` suffixes matches the pattern |
| `ClassPattern.RegistryFileMatches` | lib/Vcms-Autoloader.php:171-184 | `class.Vcms-Registry.inc` matches the pattern of `\Vcms\Registry` |
| `VcmsAutoloader.PutBinds` | lib/Vcms-Autoloader.php:225 | after storing a file under a key, that key finds the file and every other key finds what it found before |
| `VcmsAutoloader.PutEntries` | lib/Vcms-Autoloader.php:225 | storing adds no entry except the new binding |
| `VcmsAutoloader.PutKeepsKeysUnique` | lib/Vcms-Autoloader.php:225 | storing under a key keeps the keys of the index distinct |
| `VcmsAutoloader.IndexOfEntries` | lib/Vcms-Autoloader.php:220-226 | every index entry is a walked PHP file that the filter lets through, stored under its lower-cased file name with `.` turned into `-`; keys are unique |
| `VcmsAutoloader.IndexFindsLastFile` | lib/Vcms-Autoloader.php:222-226 | looking a key up finds the last walked file with that key: on a collision the later file wins |
| `VcmsAutoloader.IgnoredSubtreeNotIndexed` | lib/Vcms-Autoloader.php:360-378 | no file at or below a directory that loosely equals a filter value is indexed |
| `VcmsAutoloader.VisibleIffAccepted` | lib/Vcms-Autoloader.php:360-378 | a file is indexed only if `accept` passes every directory on its way down from the root |
| `VcmsAutoloader.IgnorePaths` | lib/Vcms-Autoloader.php:362-365 | absent exactly when no ignore list is configured |
| `Values.ArrayAtKey` | lib/Vcms-Autoloader.php:373-374 | `$filter[$i]` reads the entry under that key, and the assignment replaces that entry in place |
| `Values.ArrayWithoutKey` | lib/Vcms-Autoloader.php:373-374 | a key the array lacks reads as null, and the assignment appends it |
| `Values.NatToStringInjective` | lib/Vcms-Autoloader.php:372-375 | distinct positions have distinct keys |
| `VcmsAutoloader.NormalizedFilter` | lib/Vcms-Autoloader.php:371-375 | the loop leaves every original entry in place, normalised when it sits under a position below the count and untouched otherwise, followed by `truepath(null)` for each position the array has no entry under |
| `VcmsAutoloader.IgnorePathsMembers` | lib/Vcms-Autoloader.php:366-377 | a value is compared with exactly when it is an entry's value (normalised under a position below the count) or the working directory standing for a missing position |
| `VcmsAutoloader.ArrayPathIsRoot` | lib/Vcms-Autoloader.php:243-269 | `truepath` of an array is the root, or the root's link target: the cwd branch is skipped and no part is kept |
| `VcmsAutoloader.NestedIgnoreEntryRefusesRoot` | lib/Vcms-Autoloader.php:366-378 | an ignore list holding a nested array puts `/` into the filter, so entries directly under `/` are refused |
| `VcmsAutoloader.ListIgnorePaths` | lib/Vcms-Autoloader.php:366-375 | a list, or a single value wrapped into one, is normalised entry by entry, in order, into canonical paths or link targets |
| `VcmsAutoloader.ListedDirectoryRefused` | lib/Vcms-Autoloader.php:366-378 | a directory named by a plain ignore list is refused once normalised |
| `VcmsAutoloader.AssociativeIgnoreExample` | lib/Vcms-Autoloader.php:371-375 | `{"a": x}` has no entry under position 0: `x` stays as written and the working directory joins the filter |
| `VcmsAutoloader.LoadDirIndex` | lib/Vcms-Autoloader.php:199-227 | a path that is not a directory throws and leaves an empty index; otherwise it passes |
| `VcmsAutoloader.SearchFindsFirst` | lib/Vcms-Autoloader.php:153-158 | the search returns the first index entry whose file name matches the class pattern, and nothing exactly when no entry matches |
| `VcmsAutoloader.SearchFindsEntry` | lib/Vcms-Autoloader.php:153-156 | a file the search returns is a file of the directory's index |
| `VcmsAutoloader.DirLookup` | lib/Vcms-Autoloader.php:125-160 | an unindexed directory gives false; a direct key hit includes that file; after a direct miss, search disabled gives false, search enabled gives the first indexed file matching the class pattern (`Search`), and a missing search setting throws; that is the only exception; every file included is in the directory's index |
| `VcmsAutoloader.FirstHit` | lib/Vcms-Autoloader.php:96-100 | the result comes from the first directory, in list order, that hits or throws; it is false exactly when every directory misses |
| `VcmsAutoloader.WithSearchDefault` | lib/Vcms-Autoloader.php:63-69 | the constructor disables searching when no setting exists and changes nothing else; an existing setting is kept |
| `VcmsAutoloader.AddedDirIsListed` | lib/Vcms-Autoloader.php:305-306 | `addDir` appends the normalised path to the listed directories (non-read-only) |
| `VcmsAutoloader.DirectKeyExample` | lib/Vcms-Autoloader.php:136 | class `A\B` has the key of file `A.B.php`; the name `A.B` does not |
| `VcmsAutoloader.Autoloader.constructor` | lib/Vcms-Autoloader.php:63-69 | the registry afterwards is `WithSearchDefault` of the one before |
| `VcmsAutoloader.Autoloader.ListDirs` | lib/Vcms-Autoloader.php:318-330 | returns the `autoload` binding itself when it is present, or an empty array when it is absent |
| `VcmsAutoloader.Autoloader.FilterPaths` | lib/Vcms-Autoloader.php:362-375 | the loop reading and overwriting `$filter[$i]` in place computes `IgnorePaths` |
| `VcmsAutoloader.Autoloader.Accept` | lib/Vcms-Autoloader.php:360-379 | accepts exactly when no ignore list exists or the entry's directory loosely equals no value of the filter (`in_array`) |
| `VcmsAutoloader.Autoloader.LoadDir` | lib/Vcms-Autoloader.php:199-227 | the outcome and the indexes are `Loaded`: a non-directory throws and leaves its index empty; otherwise the index becomes `IndexOf` the walk; no other index changes |
| `VcmsAutoloader.Autoloader.IndexWalk` | lib/Vcms-Autoloader.php:220-226 | the loop fills the directory's index in place with `IndexOf` the walk |
| `VcmsAutoloader.NestedDirLoadsRoot` | lib/Vcms-Autoloader.php:199-284 | a nested array among the listed directories rebuilds the index of `/` and the rescan goes on |
| `VcmsAutoloader.Autoloader.RescanDirs` | lib/Vcms-Autoloader.php:277-284 | `loadDir` on every listed directory in order, stopping at the first that throws |
| `VcmsAutoloader.Autoloader.AutoloadDir` | lib/Vcms-Autoloader.php:125-160 | answers `DirLookup` |
| `VcmsAutoloader.Autoloader.SearchFiles` | lib/Vcms-Autoloader.php:153-159 | the loop returns `Search`: the first matching file |
| `VcmsAutoloader.Autoloader.TryDirs` | lib/Vcms-Autoloader.php:96-100 | the loop over directories returns `FirstHit` |
| `VcmsAutoloader.Autoloader.Autoload` | lib/Vcms-Autoloader.php:91-113 | a first-pass hit (or exception) is returned with the index unchanged; on a full miss every directory is rescanned once, a failed rescan throws, and otherwise the second pass decides |
| `VcmsAutoloader.Autoloader.AddDir` | lib/Vcms-Autoloader.php:297-308 | a non-string argument or an `empty()` string (`""` or `"0"`) throws InvalidType and changes nothing; otherwise the registry is `AddStep` of the normalised path, then the directory is indexed |
| `FileUtils.Truepath` | lib/Utilities/FileUtils.php:55-64 | returns exactly the Autoloader's `truepath`; that is canonical unless it names a link |
| `FileUtils.Matching` | lib/Utilities/FileUtils.php:127-139 | every name returned ends in `.<ext>` with at least one character before it |
| `FileUtils.Find` | lib/Utilities/FileUtils.php:107-140 | checks run in order: non-string path or extension, then non-bool flag, then not a directory (before the empty-extension check), then empty extension. The result is `Matching` over the walk |
| `FileUtils.FindFilesByExtension` | lib/Utilities/FileUtils.php:107-140 | the loop returns `Find` |
| `FileUtils.FindPhpFiles` | lib/Utilities/FileUtils.php:81-84 | equals the search for `php` without regard to case |
| `FileUtils.MatchingMembership` | lib/Utilities/FileUtils.php:127-139 | a name is returned exactly when the walk yields it and it has the extension |
| `FileUtils.MatchingIsSubsequence` | lib/Utilities/FileUtils.php:134-139 | the result keeps walk order |
| `FileUtils.CaseSensitiveFindsLess` | lib/Utilities/FileUtils.php:129 | every case-sensitive match is also a case-insensitive match |
| `FileUtils.ExtensionCaseIrrelevant` | lib/Utilities/FileUtils.php:129 | without case sensitivity, the spelling of the extension's case does not matter |
| `FileUtils.BareExtensionNotFound` | lib/Utilities/FileUtils.php:129 | a name that is only `.<ext>` is never returned |
| `FileUtils.PhpExample` | lib/Utilities/FileUtils.php:127-139 | on a five-name walk: `a.php` and `lib/B.PHP` are found without case, only `a.php` with case; `.php`, `php` and `notes.txt` are not found |
| `LegacyRegistry.GetBinding` | lib/Registry.php:121-129 | `get` succeeds exactly when the binding exists and is not `empty()` |
| `LegacyRegistry.Registry.Attach` | lib/Registry.php:83-92 | always throws: "does not exist" for a missing or empty binding, Overwrite otherwise; it binds nothing |
| `LegacyRegistry.Registry.Set` | lib/Registry.php:100-113 | stores the value unconditionally |
| `LegacyRegistry.Registry.Get` | lib/Registry.php:121-129 | answers `GetBinding` |
| `LegacyRegistry.Registry.Add` | lib/Registry.php:140-150 | the bindings afterwards are `AddBinding` of those before; nothing changes on a fatal error |
| `LegacyRegistry.Registry.Clear` | lib/Registry.php:158-162 | removes the binding; never throws |
| `LegacyRegistry.AttachNeverBinds` | lib/Registry.php:83-91 | `attach` throws "does not exist" exactly when `get` would, and Overwrite exactly when `get` would succeed; that nothing is bound is the frame of `Registry.Attach` |
| `LegacyRegistry.SetThenGet` | lib/Registry.php:100-129 | after `set(k, v)`, `get(k)` returns `v` unless `v` is `empty()`, in which case it throws; other keys are unaffected |
| `LegacyRegistry.ClearThenGet` | lib/Registry.php:158-161 | after `clear(k)`, `get(k)` throws; other keys are unaffected |
| `LegacyRegistry.AddToList` | lib/Registry.php:143-146 | `add` on a list keeps the old items in front, appends at most one item, and leaves the value loosely in the list; other keys are unchanged |
| `LegacyRegistry.AddToListIdempotent` | lib/Registry.php:143-146 | adding the same value to a list twice equals adding it once |
| `LegacyRegistry.AddConcatenates` | lib/Registry.php:147-149 | on anything but a list, `add` stores the concatenated string forms; an object on either side is fatal |
| `LegacyRegistry.AddToMissing` | lib/Registry.php:147-149 | `add` on a missing binding stores the value's string form |
| `LegacyLoadManager.Members` | lib/LoadManager.php:85-86 | the keys visited: one per object entry or list item, none for a scalar |
| `LegacyLoadManager.Process` | lib/LoadManager.php:85-102 | the loop never returns false; it ends normally, or throws "does not exist" or a fatal conversion error |
| `LegacyLoadManager.Load` | lib/LoadManager.php:75-103 | the registry and return afterwards are `LoadSpec` |
| `LegacyLoadManager.ProcessTouchesOnlyMemberKeys` | lib/LoadManager.php:85-102 | bindings of keys not in the document are unchanged |
| `LegacyLoadManager.LoadBindingUnchanged` | lib/LoadManager.php:86-93 | no document changes the `load` binding, so no secondary file is ever recorded or loaded |
| `LegacyLoadManager.FalseChangesNothing` | lib/LoadManager.php:77-84 | it returns false exactly when json is unavailable, the contents are loosely false, decoding fails, or the document is loosely null; nothing changes then |
| `LegacyLoadManager.LoadListIgnored` | lib/LoadManager.php:88-93 | with a non-empty `load` binding, `{"load": [...]}` loads nothing and changes nothing |
| `LegacyLoadManager.LoadKeyWithoutBindingThrows` | lib/LoadManager.php:85-87 | without a non-empty `load` binding, the first `load` key throws; keys before it that add nothing leave the bindings unchanged |
| `LegacyLoadManager.ValueAdded` | lib/LoadManager.php:95-100 | a fresh key (not `load`) whose object has a `value` field is bound to that value's string form, whatever `readonly` says, and the call ends normally |
| `LegacyAutoloader.AutoLoader.constructor` | lib/AutoLoader.php:58-68 | both fields stay null |
| `LegacyAutoloader.AutoLoader.AddDirectory` | lib/AutoLoader.php:125-134 | appends the value's strings in order, flattening nested arrays; other types change nothing |
| `LegacyAutoloader.AutoLoader.AddFileNameFormat` | lib/AutoLoader.php:141-150 | the same for the format list |
| `LegacyAutoloader.FlattenFromValue` | lib/AutoLoader.php:127-133 | every appended string is the value itself or comes from one of its elements |
| `LegacyAutoloader.PlainFormat` | lib/AutoLoader.php:105 | `sprintf` copies text without `%` as it stands |
| `LegacyAutoloader.OneDirective` | lib/AutoLoader.php:105 | a format with one `%s` and no other `%` gives the text around it with the class name in its place |
| `LegacyAutoloader.PhpFormat` | lib/AutoLoader.php:105 | the default `%s.php` names `<class>.php` |
| `LegacyAutoloader.EscapedPercent` | lib/AutoLoader.php:105 | `%%` is a literal `%`: `%%s.php` gives `%s.php` |
| `LegacyAutoloader.TwoDirectives` | lib/AutoLoader.php:105-106 | a second `%s` lacks its argument: `sprintf` returns false and the path tried is the directory itself |
| `LegacyAutoloader.FirstExisting` | lib/AutoLoader.php:104-110 | a path is found exactly when some format's candidate exists, and the path found exists |
| `LegacyAutoloader.AutoLoader.AutoloadRecursive` | lib/AutoLoader.php:102-118 | the format loop and directory walk compute `Search` (with the corrected guard) |
| `LegacyAutoloader.AutoLoader.Autoload` | lib/AutoLoader.php:88-94 | searches every registered directory in turn: `AutoloadAll` |
| `LegacyAutoloader.GuardAsWrittenAlwaysHolds` | lib/AutoLoader.php:113 | the written guard holds for every entry, `.` and `..` included |
| `LegacyAutoloader.AsWrittenDiverges` | lib/AutoLoader.php:111-116 | as written, a directory with no candidate file below it is searched without end: every budget runs out |
| `LegacyAutoloader.FreshLoaderFindsNothing` | lib/AutoLoader.php:58-68 | a freshly constructed loader searches nothing |
| `LegacyAutoloader.FirstFormatWins` | lib/AutoLoader.php:104-110 | the first existing format's path is included and the search does not descend |
| `LegacyAutoloader.SearchGrows` | lib/AutoLoader.php:102-118 | the included list only grows, stays duplicate-free, and gains only existing files |
| `LegacyAutoloader.AutoloadGrows` | lib/AutoLoader.php:88-94 | the same over all directories |
| `LegacyAutoloader.SearchGoesOn` | lib/AutoLoader.php:91-93 | a class found in the first directory is still searched for, and included, in the second |
| `LegacyAutoloader.ZeroEndsListing` | lib/AutoLoader.php:112 | an entry named `0` reads as false and ends the listing |
| `VcmsLoadManager.LoadFile` | lib/Vcms-LoadManager.php:90-150 | the `load` list stays an array and only grows at its end; read-only entries survive; nothing is rolled back. As written, no key but `load` changes. A pass keeps the message; a file-check failure leaves a non-empty one |
| `VcmsLoadManager.LoadMembers` | lib/Vcms-LoadManager.php:116-149 | the same for the loop over a document's keys |
| `VcmsLoadManager.LoadMember` | lib/Vcms-LoadManager.php:117-147 | the same for one key, and `$item` stays a scalar from the documents |
| `VcmsLoadManager.LoadItems` | lib/Vcms-LoadManager.php:123-134 | the same for a `load` array; a pass means no entry was an array |
| `VcmsLoadManager.LoadOne` | lib/Vcms-LoadManager.php:129-132 | the same for one `load` entry |
| `VcmsLoadManager.AddToLoadList` | lib/Vcms-LoadManager.php:130 | `add('load', x, false)` appends exactly `x`, non-read-only, or changes nothing |
| `VcmsLoadManager.SeenItemsSkipped` | lib/Vcms-LoadManager.php:124-134 | entries all loosely in the snapshot are skipped: the registry and message stay as they were |
| `VcmsLoadManager.LoadedPathsSkipped` | lib/Vcms-LoadManager.php:116-134 | a document `{"load": [...]}` naming only paths already in the `load` list changes nothing and passes |
| `VcmsLoadManager.LoadOneAdds` | lib/Vcms-LoadManager.php:129-132 | an entry not in the snapshot whose append passes is loaded next, from a registry with strictly fewer unseen paths, so the recursion ends |
| `VcmsLoadManager.FileCheckFailures` | lib/Vcms-LoadManager.php:92-114 | JSON missing, path unresolved, file unreadable, or decoding to null each throw, set their message and leave the registry unchanged |
| `VcmsLoadManager.EmptyDocLoads` | lib/Vcms-LoadManager.php:116 | a document decoding to `{}` changes nothing and passes |
| `VcmsLoadManager.AppendsThenLoads` | lib/Vcms-LoadManager.php:129-132 | an entry not in the snapshot is appended (non-read-only) before it is loaded |
| `VcmsLoadManager.DuplicateLoadedTwice` | lib/Vcms-LoadManager.php:118-133 | the snapshot is taken once per key, so a path listed twice in one array is appended twice |
| `VcmsLoadManager.NoRollback` | lib/Vcms-LoadManager.php:116-149 | a nested array after a loaded entry throws, and the loaded entry stays in the `load` list |
| `VcmsLoadManager.PassThenNested` | lib/Vcms-LoadManager.php:124-127 | a nested array throws before it is loaded |
| `VcmsLoadManager.ScalarLoadThrows` | lib/Vcms-LoadManager.php:135-140 | as written, a scalar `load` value adds the unbound `$item` (null): DataException, nothing loaded |
| `VcmsLoadManager.ScalarLoadLoads` | lib/Vcms-LoadManager.php:135-140 | intended: a scalar `load` value is appended and loaded like an array entry |
| `VcmsLoadManager.OtherKeysSkipped` | lib/Vcms-LoadManager.php:142-147 | as written, every non-`load` key is skipped |
| `VcmsLoadManager.OtherKeysAdded` | lib/Vcms-LoadManager.php:142-147 | intended: a key whose object has a `value` field is added with its `readonly` field, default false |
| `VcmsLoadManager.LoadManager.constructor` | lib/Vcms-LoadManager.php:65-73 | the error message starts empty |
| `VcmsLoadManager.LoadManager.GetUserErrorMessage` | lib/Vcms-LoadManager.php:80-83 | returns the current message |
| `VcmsLoadManager.LoadManager.Load` | lib/Vcms-LoadManager.php:90-150 | the registry, message and outcome afterwards are `LoadFile` |
| `VcmsLoadManager.LoadManager.ProcessMembers` | lib/Vcms-LoadManager.php:116-149 | the key loop follows `LoadMembers` |
| `VcmsLoadManager.LoadManager.ProcessMember` | lib/Vcms-LoadManager.php:117-148 | one key follows `LoadMember` |
| `VcmsLoadManager.LoadManager.ProcessItems` | lib/Vcms-LoadManager.php:124-134 | the array loop follows `LoadItems` |
| `VcmsLoadManager.LoadManager.LoadEntry` | lib/Vcms-LoadManager.php:129-132 | one entry follows `LoadOne` |

## Left out

- I/O and PHP built-ins are inputs, not behaviour. A `Host` value supplies
  `getcwd`, `readlink`/`is_link`, `realpath`, `file_get_contents`, the
  decoding `json_decode` produces, the recursive directory iterators,
  `is_dir`, `function_exists('json_decode')` and the CLI flag. `utf8_encode`
  is not modelled.
- The regular expressions are not run by a general engine.
  - The class pattern is a hand-written predicate for its one shape.
  - The PHP-file and extension filters are suffix checks.
  - Regex metacharacters inside a class name or an extension are taken
    literally.
  - Names containing line breaks are not modelled exactly.
- `require_once`, `include_once` and `echo` are not modelled. A hit returns
  the included path, and `include_once` is a list of paths seen.
- Singletons, `getInstance`, `__clone` and the singleton-copy exception are
  not modelled. Each component is one explicit object.
- PHP reference aliasing in `attach` is not modelled: the value is bound by
  copy. `Vcms-RegistryNode.php` and its `setAttachedValue` are not part of
  this model. The attached node is an entry with an `attached` mark and the
  attached value.
- Loose `==` is modelled for null and booleans. Other comparisons are
  strict: across types (PHP 7 also has `0 == "lib"`) and between numeric
  strings, which PHP compares as numbers (`"1" == "01"`). Floats are not
  modelled.
- `array_merge` on associative arrays is not modelled: its string keys are
  not overwritten. Merging onto a non-array value yields null, as PHP 5/7 do.
- `VcmsLoadManager.LoadManager.Load` requires the `load` binding to be
  absent or an array. On any other value the list never grows, and a file
  that loads itself recurses without end.
- `LegacyAutoloader.AutoLoader.AutoloadRecursive` uses the corrected guard.
  The written guard is modelled only by `SearchAsWritten` with a step
  budget. Its listing starts with `.` and leaves out the `..` entry.
- `Paths.Truepath` follows a link once, through the host's `links` map. The
  link target is returned as `readlink` gives it, without being normalised.
- `VcmsAutoloader.Autoloader.Accept` takes the entry's containing directory
  as a path string. The iterator object is not modelled.
- `VcmsAutoloader.IgnorePaths` takes a decoded object's keys as PHP array
  keys: a key spelling a number in canonical decimal is that integer key.
  An object with a repeated key is not a PHP array and is left out of the
  lemmas about it.
- `LegacyAutoloader.Format` models `%%`, `%s` and the missing argument of a
  second `%s`. Other directives (width, padding, other types, argument
  numbers) are copied as written, and so is a lone `%` at the end.
- `LegacyRegistry.Registry.Attach` throws an unqualified
  `OverwriteException`, which names a class no file declares in the legacy
  namespace; PHP most likely stops with a fatal error there. The model
  records the overwrite the code means to report.
- The exception message texts are not modelled, except for the loader's
  user-facing messages.
- lib/VictoryCMS.php, the view, controller, response and authenticator
  classes, the library loader, the exception classes and the key constant
  tables are not part of this model. They are process glue, abstract bases,
  or plain constants, used here as string literals.

## Findings

| source | as written | input that shows it | evidently intended | confidence | as-written member | corrected member |
|---|---|---|---|---|---|---|
| lib/Vcms-LoadManager.php:142-147 | tests `isset($json->$key->value)` on the associative array decoded at line 109; this is never true, so every non-`load` key is skipped | `{"admin_email": {"value": "a@b.com"}}`: nothing is added | add `value` with `readonly`, default false | high, not executed | `VcmsLoadManager.OtherKeysSkipped` | `VcmsLoadManager.OtherKeysAdded` |
| lib/Vcms-LoadManager.php:135-140 | a scalar `load` value tests and adds the unbound `$item` instead of the value | `{"load": "sub.json"}` as the first `load` key: `Registry::add('load', null)` throws DataException | treat the scalar as one path: append it and load it | high, not executed | `VcmsLoadManager.ScalarLoadThrows` | `VcmsLoadManager.ScalarLoadLoads` |
| lib/AutoLoader.php:113 | the guard `$entry != '.' \|\| $entry != '..'` is always true, so `.` is entered again and again | a registered directory with no file matching any format: the search enters `dir/.`, `dir/./.` and so on until a system limit (open directory handles, each level's `dir()` handle staying open, or path length) stops it; the model's tree repeats without bound, so every step budget runs out | `&&`: skip `.` and `..` | high, not executed | `LegacyAutoloader.AsWrittenDiverges` | `LegacyAutoloader.SearchGrows` |
