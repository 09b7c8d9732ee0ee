# Interpreter registry of the Android Scripting Environment, in Dafny

This project models `InterpreterManager`, the registry that decides which scripting-language interpreters the Android Scripting Environment (ASE) offers. The registry is a fixed, ordered catalog of interpreter descriptors. Each descriptor has a name and a script extension. The registry does four things:

- it decides whether an interpreter is installed: `sh` always is, and any other interpreter is installed when `INTERPRETER_ROOT + name` or `INTERPRETER_EXTRAS_ROOT + name` exists on the device;
- it splits the catalog into installed and not-installed lists, keeping catalog order;
- it looks an interpreter up by exact name, taking the first match;
- it looks an interpreter up for a script file, by the extension that runs from the file name's last `.` (the dot included), taking the first entry whose extension is exactly equal. A file name with no dot gets no interpreter.

Layout:

- `wrappers.dfy`: module `Wrappers`, which holds `Option`. `None` stands for Java's `null` result.
- `sequences.dfy`: module `Sequences`, which holds what "subsequence" and "interleaving" mean, with the facts an interleaving implies (lengths add up, multisets add up, both halves are subsequences).
- `interpreter_manager.dfy`: module `InterpreterManager`, the registry itself. Its parts are:
  - `Interp(name, ext)`, one catalog entry;
  - `Device(interpreterRoot, extrasRoot, existing)`, the two install roots and the set of paths that exist;
  - `CheckInstalled`;
  - `Select` with `GetInstalledInterpreters` and `GetNotInstalledInterpreters`;
  - `FirstMatch`, the in-order scan both lookups share;
  - `GetInterpreterByName`, `LastIndexOf`, `ScriptExtension` and `GetInterpreterForScript`;
  - lemmas relating all of these.

The catalog is a parameter (`seq<Interp>`) of every operation. It is not a hard-coded list. The filesystem probe `File.exists()` becomes membership in `Device.existing`.

Every registry operation is total. The "not found", "no dot" and "not installed" outcomes are ordinary results (`None`, `false`), just as the Java code returns `null` or `false` for them rather than throwing. The exceptions the Java code can raise on other paths are listed under "Left out".

## Model

| member | source | states |
|---|---|---|
| `InterpreterManager.ShellAlwaysInstalled` | android/AndroidScriptingEnvironment/src/com/google/ase/interpreter/InterpreterManager.java:49-53 | `CheckInstalled`, the model of `checkInstalled`, reports `sh` installed on every device, even one where no path exists at all |
| `InterpreterManager.InstalledIffPathExists` | android/AndroidScriptingEnvironment/src/com/google/ase/interpreter/InterpreterManager.java:54-56 | for any name other than `sh`, `CheckInstalled` holds exactly when one of the two install locations (interpreter root + name, extras root + name) exists |
| `InterpreterManager.InstalledDependsOnlyOnInstallPaths` | android/AndroidScriptingEnvironment/src/com/google/ase/interpreter/InterpreterManager.java:54-56 | the installed answer depends only on those two paths: two devices with the same roots that agree on them give the same answer, whatever else exists |
| `InterpreterManager.InstalledMonotone` | android/AndroidScriptingEnvironment/src/com/google/ase/interpreter/InterpreterManager.java:49-56 | creating more paths on the device never makes an installed interpreter uninstalled |
| `InterpreterManager.Select` | android/AndroidScriptingEnvironment/src/com/google/ase/interpreter/InterpreterManager.java:66-84 | the shared filtering loop: no longer than the catalog; every returned entry has the requested status; every catalog entry with that status is returned; nothing outside the catalog is returned |
| `InterpreterManager.GetInstalledInterpreters` | android/AndroidScriptingEnvironment/src/com/google/ase/interpreter/InterpreterManager.java:66-74 | an entry is in the installed list if and only if it is in the catalog and its name passes the installed check |
| `InterpreterManager.GetNotInstalledInterpreters` | android/AndroidScriptingEnvironment/src/com/google/ase/interpreter/InterpreterManager.java:76-84 | an entry is in the not-installed list if and only if it is in the catalog and its name fails the installed check |
| `InterpreterManager.SelectIsSubsequence` | android/AndroidScriptingEnvironment/src/com/google/ase/interpreter/InterpreterManager.java:66-84 | each list is an order-preserving subsequence of the catalog |
| `InterpreterManager.SelectCountsOccurrences` | android/AndroidScriptingEnvironment/src/com/google/ase/interpreter/InterpreterManager.java:66-84 | each list holds every occurrence of every catalog entry with the matching status, and no occurrence of any other entry (as multisets) |
| `InterpreterManager.InstalledPartition` | android/AndroidScriptingEnvironment/src/com/google/ase/interpreter/InterpreterManager.java:66-84 | the catalog is an interleaving of the installed and not-installed lists: their lengths sum to the catalog's, their multisets sum to the catalog's, and every catalog entry is in exactly one of them |
| `InterpreterManager.PartitionUnique` | android/AndroidScriptingEnvironment/src/com/google/ase/interpreter/InterpreterManager.java:66-84 | any interleaving of the catalog into an all-installed list and an all-not-installed list is exactly the pair the two operations return |
| `InterpreterManager.FirstMatch` | android/AndroidScriptingEnvironment/src/com/google/ase/interpreter/InterpreterManager.java:91-96 | the in-order scan that both lookups use (lines 91-96 and 109-114): None exactly when no entry's field equals the key; otherwise an index whose entry matches, with no match at any earlier index |
| `InterpreterManager.GetInterpreterByName` | android/AndroidScriptingEnvironment/src/com/google/ase/interpreter/InterpreterManager.java:86-97 | null (None) exactly when no catalog entry has the name; otherwise the result has that name and is the entry at the smallest index with it |
| `InterpreterManager.LookupByOwnName` | android/AndroidScriptingEnvironment/src/com/google/ase/interpreter/InterpreterManager.java:90-97 | in a catalog with distinct names, looking up any entry's own name returns that entry |
| `InterpreterManager.LastIndexOf` | android/AndroidScriptingEnvironment/src/com/google/ase/interpreter/InterpreterManager.java:104-105 | `lastIndexOf('.')`: -1 exactly when the string has no dot; otherwise a dot's position with no dot after it |
| `InterpreterManager.ScriptExtension` | android/AndroidScriptingEnvironment/src/com/google/ase/interpreter/InterpreterManager.java:104-108 | the extension is absent exactly when the name has no dot; otherwise it is a suffix of the name that starts with a dot and has no other dot |
| `InterpreterManager.ExtensionOfStemPlusExtension` | android/AndroidScriptingEnvironment/src/com/google/ase/interpreter/InterpreterManager.java:104-108 | appending a well-formed extension (one leading dot, no other dot) to any stem and extracting the extension gives that extension back, even if the stem contains dots |
| `InterpreterManager.GetInterpreterForScript` | android/AndroidScriptingEnvironment/src/com/google/ase/interpreter/InterpreterManager.java:99-115 | null for a name without a dot; null exactly when there is no dot or no entry has the extracted extension; otherwise the result's extension is the script's extension, and it is the first entry with that extension |
| `InterpreterManager.ScriptLookupByOwnExtension` | android/AndroidScriptingEnvironment/src/com/google/ase/interpreter/InterpreterManager.java:103-115 | in a catalog with distinct extensions, a script named `stem + e` for an entry's well-formed extension `e` is given that entry |
| `InterpreterManager.MalformedExtensionNeverChosen` | android/AndroidScriptingEnvironment/src/com/google/ase/interpreter/InterpreterManager.java:108-111 | an entry whose extension is not a dot followed by dot-free text (an empty extension, say) is never chosen for any script |
| `InterpreterManager.LastDotWins` | android/AndroidScriptingEnvironment/src/com/google/ase/interpreter/InterpreterManager.java:104-108 | `archive.tar.gz` has extension `.gz` (only the last dot counts); `noext` has none |
| `InterpreterManager.ScenarioPartition` | android/AndroidScriptingEnvironment/src/com/google/ase/interpreter/InterpreterManager.java:49-84 | with catalog lua, python, sh and only the primary root's `python` present, installed = [python, sh] and not installed = [lua], for every choice of roots |
| `InterpreterManager.ScenarioScriptLookup` | android/AndroidScriptingEnvironment/src/com/google/ase/interpreter/InterpreterManager.java:103-115 | for the same catalog, `x.lua` resolves to lua and `noext` to null |
| `InterpreterManager.ScenarioNameLookup` | android/AndroidScriptingEnvironment/src/com/google/ase/interpreter/InterpreterManager.java:90-97 | for the same catalog, `python` resolves to python and `ruby` to null |

## Left out

- `GetSupportedInterpreters` (lines 62-64) is the identity on the catalog parameter and carries no contract of its own. The Java list is a fixed-size `Arrays.asList` view, and its mutability is not modelled.
- The five concrete interpreter classes (Lua, BeanShell, Python, shell, JRuby) at lines 45-47 are not part of this model. Their names, extensions and launch behaviour live in files this model does not include, so the catalog is a parameter.
- `Constants.INTERPRETER_ROOT` and `Constants.INTERPRETER_EXTRAS_ROOT` are not part of this model. They are the opaque strings `Device.interpreterRoot` and `Device.extrasRoot`.
- `InstalledPartition`, `GetInstalledInterpreters` and `GetNotInstalledInterpreters`: both lists, and every installed check inside them, are evaluated against one snapshot of storage (one `Device`). In the Java code, `File.exists()` runs again for each entry, and the two lists come from two separate calls. So the partition is a per-snapshot guarantee. If storage changes between or during the calls, an entry can be in neither list or in both.
- `File.exists()` is filesystem I/O. It becomes membership in `Device.existing`. A `SecurityException` that `exists()` could raise is not modelled.
- Null strings are not modelled, because strings here are never null. In the Java code, a `null` argument to `checkInstalled` or `getInterpreterForScript` throws `NullPointerException`. A catalog entry whose `getName()` or `getExtension()` returns `null` throws it too, once the scan reaches that entry. `getInterpreterByName(null)` does not throw: `equals(null)` is false for every entry, so it returns `null`.
- Java strings are UTF-16 code-unit sequences. Here they are `seq<char>`, compared exactly with no case folding, just as `String.equals` does. A Dafny `char` is a Unicode scalar value, so a file name holding an unpaired surrogate is outside the model. `LastIndexOf` counts scalars where Java counts code units, but the extracted suffix is the same either way.
- A catalog entry is identified by its (name, extension) value, not by object identity. Two distinct Java interpreter objects with equal name and extension are the same `Interp` here. The lookups tell them apart only through `FirstMatch`'s index.
- Nothing in the code makes names unique, and the code does not rely on them being unique. The model does not assume it either: duplicates resolve to the first match. Only the two round-trip lemmas (`LookupByOwnName`, `ScriptLookupByOwnExtension`) require distinct names or extensions.
