/**
 The interpreter registry of the Android Scripting Environment: a fixed,
 ordered catalog of interpreter descriptors, a probe that decides whether an
 interpreter is installed on the device, the installed / not-installed
 partition of the catalog, and the two lookups (by name, by script file name).

 The catalog and the device's storage are parameters: the concrete interpreter
 classes and the two install roots are not part of this model, and probing
 the filesystem becomes membership in the set of paths that exist.
 */
module InterpreterManager {
  import opened Wrappers
  import opened Sequences

  /** One catalog entry: the interpreter's name and the file extension
      (leading dot included) of the scripts it runs. */
  datatype Interp = Interp(name: string, ext: string)

  /** What the registry can observe of the device: the two install roots and
      the set of paths that currently exist on storage. */
  datatype Device = Device(interpreterRoot: string, extrasRoot: string, existing: set<string>)

  /** The interpreter name that the installed check accepts without probing storage. */
  const SHELL: string := "sh"

  /** The two locations where an interpreter called `name` may be installed. */
  function InstallPaths(dev: Device, name: string): set<string>
  {
    {dev.interpreterRoot + name, dev.extrasRoot + name}
  }

  // ---------------------------------------------------------------------------
  // checkInstalled

  /** Whether the interpreter called `name` is installed: the shell always is;
      any other interpreter is when either of its install paths exists. */
  predicate CheckInstalled(dev: Device, name: string)
  {
    if name == SHELL then true
    else dev.interpreterRoot + name in dev.existing || dev.extrasRoot + name in dev.existing
  }

  /** The shell is reported installed whatever the device holds, even on a
      device where no path exists at all. */
  lemma ShellAlwaysInstalled(dev: Device)
    ensures CheckInstalled(dev, SHELL)
  {
  }

  /** Any other interpreter is installed exactly when one of its two install
      locations exists on the device. */
  lemma InstalledIffPathExists(dev: Device, name: string)
    requires name != SHELL
    ensures CheckInstalled(dev, name) <==> exists p :: p in InstallPaths(dev, name) && p in dev.existing
  {
  }

  /** The answer depends on nothing but the two install locations: devices
      with the same roots that agree on those paths give the same answer. */
  lemma InstalledDependsOnlyOnInstallPaths(dev: Device, other: Device, name: string)
    requires other.interpreterRoot == dev.interpreterRoot && other.extrasRoot == dev.extrasRoot
    requires forall p | p in InstallPaths(dev, name) :: p in dev.existing <==> p in other.existing
    ensures CheckInstalled(dev, name) == CheckInstalled(other, name)
  {
  }

  /** Creating paths on the device never uninstalls an interpreter. */
  lemma InstalledMonotone(dev: Device, created: set<string>, name: string)
    requires CheckInstalled(dev, name)
    ensures CheckInstalled(dev.(existing := dev.existing + created), name)
  {
  }

  // ---------------------------------------------------------------------------
  // getSupportedInterpreters, getInstalledInterpreters, getNotInstalledInterpreters

  /** The full catalog, in catalog order. */
  function GetSupportedInterpreters(catalog: seq<Interp>): seq<Interp>
  {
    catalog
  }

  /** The catalog entries whose installation status is `installed`, in catalog
      order: one pass over the catalog, appending each entry that qualifies. */
  function Select(dev: Device, catalog: seq<Interp>, installed: bool): (r: seq<Interp>)
    ensures |r| <= |catalog|
    ensures forall i | 0 <= i < |r| :: CheckInstalled(dev, r[i].name) == installed
    ensures forall x | x in catalog && CheckInstalled(dev, x.name) == installed :: x in r
    ensures forall x | x in r :: x in catalog
    decreases |catalog|
  {
    if |catalog| == 0 then []
    else
      var rest := Select(dev, DropLast(catalog), installed);
      assert catalog == DropLast(catalog) + [Last(catalog)];
      if CheckInstalled(dev, Last(catalog).name) == installed then rest + [Last(catalog)] else rest
  }

  /** The installed interpreters, in catalog order. */
  function GetInstalledInterpreters(dev: Device, catalog: seq<Interp>): (r: seq<Interp>)
    ensures forall x :: x in r <==> x in catalog && CheckInstalled(dev, x.name)
  {
    Select(dev, catalog, true)
  }

  /** The interpreters that are not installed, in catalog order. */
  function GetNotInstalledInterpreters(dev: Device, catalog: seq<Interp>): (r: seq<Interp>)
    ensures forall x :: x in r <==> x in catalog && !CheckInstalled(dev, x.name)
  {
    Select(dev, catalog, false)
  }

  /** Each selection keeps catalog order: it is a subsequence of the catalog. */
  lemma {:induction false} SelectIsSubsequence(dev: Device, catalog: seq<Interp>, installed: bool)
    ensures IsSubsequence(Select(dev, catalog, installed), catalog)
    decreases |catalog|
  {
    if |catalog| > 0 {
      var init, last := DropLast(catalog), Last(catalog);
      var rest := Select(dev, init, installed);
      SelectIsSubsequence(dev, init, installed);
      assert catalog == init + [last];
      if CheckInstalled(dev, last.name) == installed {
        assert Select(dev, catalog, installed) == rest + [last];
        assert DropLast(rest + [last]) == rest;
      } else {
        assert Select(dev, catalog, installed) == rest;
        SubsequenceOfLonger(rest, init, last);
      }
    }
  }

  /** Each selection keeps every occurrence of a qualifying entry and none of
      any other: its multiset is the catalog's restricted to the entries whose
      status matches. */
  lemma {:induction false} SelectCountsOccurrences(dev: Device, catalog: seq<Interp>, installed: bool)
    ensures forall x :: multiset(Select(dev, catalog, installed))[x]
                        == if CheckInstalled(dev, x.name) == installed then multiset(catalog)[x] else 0
    decreases |catalog|
  {
    if |catalog| > 0 {
      var init, last := DropLast(catalog), Last(catalog);
      SelectCountsOccurrences(dev, init, installed);
      assert multiset(catalog) == multiset(init) + multiset{last} by {
        assert catalog == init + [last];
      }
    }
  }

  /** The installed and not-installed lists partition the catalog: the catalog
      is an interleaving of the two, so their lengths add up to its length,
      every entry occurs in exactly one of them, and each keeps catalog order. */
  lemma {:induction false} InstalledPartition(dev: Device, catalog: seq<Interp>)
    ensures IsMerge(catalog, GetInstalledInterpreters(dev, catalog), GetNotInstalledInterpreters(dev, catalog))
    ensures |GetInstalledInterpreters(dev, catalog)| + |GetNotInstalledInterpreters(dev, catalog)| == |catalog|
    ensures multiset(GetInstalledInterpreters(dev, catalog)) + multiset(GetNotInstalledInterpreters(dev, catalog))
            == multiset(catalog)
    ensures forall x | x in catalog ::
              (x in GetInstalledInterpreters(dev, catalog)) != (x in GetNotInstalledInterpreters(dev, catalog))
    decreases |catalog|
  {
    var yes, no := GetInstalledInterpreters(dev, catalog), GetNotInstalledInterpreters(dev, catalog);
    if |catalog| > 0 {
      InstalledPartition(dev, DropLast(catalog));
      if CheckInstalled(dev, Last(catalog).name) {
        assert DropLast(yes) == Select(dev, DropLast(catalog), true);
      } else {
        assert DropLast(no) == Select(dev, DropLast(catalog), false);
      }
    }
    MergeSplits(catalog, yes, no);
  }

  /** The partition is the only one: any interleaving of the catalog into an
      all-installed list and an all-not-installed list is exactly the pair the
      registry returns. */
  lemma {:induction false} PartitionUnique(dev: Device, catalog: seq<Interp>, yes: seq<Interp>, no: seq<Interp>)
    requires IsMerge(catalog, yes, no)
    requires forall i | 0 <= i < |yes| :: CheckInstalled(dev, yes[i].name)
    requires forall i | 0 <= i < |no| :: !CheckInstalled(dev, no[i].name)
    ensures yes == GetInstalledInterpreters(dev, catalog)
    ensures no == GetNotInstalledInterpreters(dev, catalog)
    decreases |catalog|
  {
    if |catalog| > 0 {
      if CheckInstalled(dev, Last(catalog).name) {
        assert !(|no| > 0 && Last(no) == Last(catalog));
        PartitionUnique(dev, DropLast(catalog), DropLast(yes), no);
        assert yes == DropLast(yes) + [Last(yes)];
      } else {
        assert !(|yes| > 0 && Last(yes) == Last(catalog));
        PartitionUnique(dev, DropLast(catalog), yes, DropLast(no));
        assert no == DropLast(no) + [Last(no)];
      }
    }
  }

  // ---------------------------------------------------------------------------
  // getInterpreterByName, getInterpreterForScript

  /** The descriptor field a lookup compares against. */
  datatype Field = Name | Extension

  function Key(i: Interp, f: Field): string
  {
    match f
    case Name => i.name
    case Extension => i.ext
  }

  /** The in-order scan both lookups perform: the index of the first catalog
      entry whose field `f` equals `key` exactly, or None when there is none. */
  function FirstMatch(catalog: seq<Interp>, f: Field, key: string): (r: Option<nat>)
    ensures r.None? <==> forall i | 0 <= i < |catalog| :: Key(catalog[i], f) != key
    ensures r.Some? ==> r.value < |catalog| && Key(catalog[r.value], f) == key
    ensures r.Some? ==> forall j | 0 <= j < r.value :: Key(catalog[j], f) != key
    decreases |catalog|
  {
    if |catalog| == 0 then None
    else if Key(catalog[0], f) == key then Some(0)
    else
      match FirstMatch(catalog[1..], f, key)
      case None => None
      case Some(k) => Some(k + 1)
  }

  /** The entry with the given name, or None. The entry returned is the one
      at the smallest index with that name. */
  function GetInterpreterByName(catalog: seq<Interp>, name: string): (r: Option<Interp>)
    ensures r.None? <==> forall i | 0 <= i < |catalog| :: catalog[i].name != name
    ensures r.Some? ==> r.value.name == name
    ensures r.Some? ==> exists k | 0 <= k < |catalog| ::
                          r.value == catalog[k] && forall j | 0 <= j < k :: catalog[j].name != name
  {
    match FirstMatch(catalog, Name, name)
    case None => None
    case Some(k) => Some(catalog[k])
  }

  /** Java's `String.lastIndexOf(char)`: the index of the last occurrence of
      `c` in `s`, or -1 when `s` does not contain it. */
  function LastIndexOf(s: string, c: char): (r: int)
    ensures -1 <= r < |s|
    ensures r == -1 <==> c !in s
    ensures 0 <= r ==> s[r] == c
    ensures forall j | r < j < |s| :: s[j] != c
    decreases |s|
  {
    if |s| == 0 then -1
    else if Last(s) == c then |s| - 1
    else
      var k := LastIndexOf(DropLast(s), c);
      assert s == DropLast(s) + [Last(s)];
      k
  }

  /** The extension of a script file name: everything from its last '.' on,
      the dot included; None when the name has no dot at all. */
  function ScriptExtension(script: string): (r: Option<string>)
    ensures r.None? <==> '.' !in script
    ensures r.Some? ==> |r.value| <= |script| && script[|script| - |r.value|..] == r.value
    ensures r.Some? ==> |r.value| > 0 && r.value[0] == '.' && '.' !in r.value[1..]
  {
    var dot := LastIndexOf(script, '.');
    if dot == -1 then None
    else
      assert forall j | 0 <= j < |script[dot..][1..]| :: script[dot..][1..][j] == script[dot + 1 + j];
      Some(script[dot..])
  }

  /** The interpreter for a script file: the first catalog entry whose
      extension equals the script's extension exactly; None when the name has
      no dot or no entry has that extension. */
  function GetInterpreterForScript(catalog: seq<Interp>, script: string): (r: Option<Interp>)
    ensures '.' !in script ==> r.None?
    ensures r.None? <==> ScriptExtension(script).None?
                         || forall i | 0 <= i < |catalog| :: catalog[i].ext != ScriptExtension(script).value
    ensures r.Some? ==> ScriptExtension(script) == Some(r.value.ext)
    ensures r.Some? ==> exists k | 0 <= k < |catalog| ::
                          r.value == catalog[k] && forall j | 0 <= j < k :: catalog[j].ext != r.value.ext
  {
    match ScriptExtension(script)
    case None => None
    case Some(ext) =>
      match FirstMatch(catalog, Extension, ext)
      case None => None
      case Some(k) => Some(catalog[k])
  }

  // ---------------------------------------------------------------------------
  // Lookups as inverses of the catalog

  /** No two catalog entries share a name. */
  predicate DistinctNames(catalog: seq<Interp>)
  {
    forall i, j | 0 <= i < j < |catalog| :: catalog[i].name != catalog[j].name
  }

  /** No two catalog entries share an extension. */
  predicate DistinctExtensions(catalog: seq<Interp>)
  {
    forall i, j | 0 <= i < j < |catalog| :: catalog[i].ext != catalog[j].ext
  }

  /** A well-formed extension: a leading dot and no further dot. */
  predicate IsExtension(ext: string)
  {
    |ext| > 0 && ext[0] == '.' && forall j | 1 <= j < |ext| :: ext[j] != '.'
  }

  /** Looking up an entry's own name gives that entry back, when names are
      distinct. */
  lemma LookupByOwnName(catalog: seq<Interp>, k: nat)
    requires DistinctNames(catalog)
    requires k < |catalog|
    ensures GetInterpreterByName(catalog, catalog[k].name) == Some(catalog[k])
  {
  }

  /** Extension extraction undoes appending a well-formed extension to any
      stem, whatever dots the stem itself contains. */
  lemma {:induction false} ExtensionOfStemPlusExtension(stem: string, ext: string)
    requires IsExtension(ext)
    ensures ScriptExtension(stem + ext) == Some(ext)
  {
    var s := stem + ext;
    var dot := LastIndexOf(s, '.');
    assert s[|stem|] == '.';
    assert forall j | |stem| < j < |s| :: s[j] == ext[j - |stem|];
    assert dot == |stem|;
    assert s[dot..] == ext;
  }

  /** A script named after an entry's well-formed extension is run by that
      entry, when extensions are distinct. */
  lemma ScriptLookupByOwnExtension(catalog: seq<Interp>, k: nat, stem: string)
    requires DistinctExtensions(catalog)
    requires k < |catalog|
    requires IsExtension(catalog[k].ext)
    ensures GetInterpreterForScript(catalog, stem + catalog[k].ext) == Some(catalog[k])
  {
    ExtensionOfStemPlusExtension(stem, catalog[k].ext);
    var r := FirstMatch(catalog, Extension, catalog[k].ext);
    assert r.Some?;
    assert !(r.value < k) && !(k < r.value);
  }

  /** An entry whose extension lacks the leading dot (an empty one,
      say) is never chosen for any script. */
  lemma MalformedExtensionNeverChosen(catalog: seq<Interp>, script: string)
    ensures GetInterpreterForScript(catalog, script).Some? ==>
              IsExtension(GetInterpreterForScript(catalog, script).value.ext)
  {
  }

  /** Only the part after the last dot counts: "archive.tar.gz" has
      extension ".gz", not ".tar.gz". */
  lemma LastDotWins()
    ensures ScriptExtension("archive.tar.gz") == Some(".gz")
    ensures ScriptExtension("noext") == None
  {
  }

  /** A worked scenario: lua, python and sh in the catalog, python present
      under the primary root, nothing else present. The shell is installed
      without any path, and lua is not. */
  lemma ScenarioPartition(root: string, extras: string)
    ensures var lua, python, sh := Interp("lua", ".lua"), Interp("python", ".py"), Interp("sh", "");
            var dev := Device(root, extras, {root + "python"});
            && GetInstalledInterpreters(dev, [lua, python, sh]) == [python, sh]
            && GetNotInstalledInterpreters(dev, [lua, python, sh]) == [lua]
  {
    var lua, python, sh := Interp("lua", ".lua"), Interp("python", ".py"), Interp("sh", "");
    var dev := Device(root, extras, {root + "python"});
    assert (root + "lua")[|root + "lua"| - 1] == 'a';
    assert (extras + "lua")[|extras + "lua"| - 1] == 'a';
    assert (root + "python")[|root + "python"| - 1] == 'n';
    assert !CheckInstalled(dev, "lua");
    assert CheckInstalled(dev, "python");
    assert DropLast([lua]) == [];
    assert DropLast([lua, python]) == [lua];
    assert DropLast([lua, python, sh]) == [lua, python];
    assert Select(dev, [lua], true) == [];
    assert Select(dev, [lua], false) == [lua];
    assert Select(dev, [lua, python], true) == [python];
    assert Select(dev, [lua, python], false) == [lua];
  }

  /** The same catalog resolved by script name. */
  lemma ScenarioScriptLookup()
    ensures var lua, python, sh := Interp("lua", ".lua"), Interp("python", ".py"), Interp("sh", "");
            && GetInterpreterForScript([lua, python, sh], "x.lua") == Some(lua)
            && GetInterpreterForScript([lua, python, sh], "noext") == None
  {
    ExtensionOfStemPlusExtension("x", ".lua");
    assert "x" + ".lua" == "x.lua";
    assert "noext"[3] != '.';
  }

  /** The same catalog resolved by interpreter name. */
  lemma ScenarioNameLookup()
    ensures var lua, python, sh := Interp("lua", ".lua"), Interp("python", ".py"), Interp("sh", "");
            && GetInterpreterByName([lua, python, sh], "python") == Some(python)
            && GetInterpreterByName([lua, python, sh], "ruby") == None
  {
    var lua, python, sh := Interp("lua", ".lua"), Interp("python", ".py"), Interp("sh", "");
    LookupByOwnName([lua, python, sh], 1);
  }
}
