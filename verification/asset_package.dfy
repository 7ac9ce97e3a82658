/** The current revision of the asset package (`Asset/AssetPackage.php`):
    the shared dependency merge followed by ordering of both dependency
    sections, and the injection of `license` / `private` from the root
    Composer package. */
module AssetPackage {
  import opened Wrappers
  import opened OrderedMap
  import opened PhpValue
  import opened Manifest

  /** The constructor: the decoded file cast to an array when the file
      exists, an empty document otherwise, then the required keys. Every key
      but `license` and `private` reads as in the file; a file with its own
      license is taken as it is; with no file and no root license the
      document is empty; otherwise a missing license is filled in from the
      first root license, `proprietary` only marking the document private. */
  function Open(fileExists: bool, document: Value, licenses: seq<string>): (pkg: Package)
    ensures !fileExists ==> pkg == InjectRequiredKeys([], licenses)
    ensures fileExists ==> pkg == InjectRequiredKeys(ToArray(document), licenses)
    ensures fileExists ==> forall k :: k != License && k != Private ==> Get(pkg, k) == Get(ToArray(document), k)
    ensures !fileExists ==> forall k :: k != License && k != Private ==> Get(pkg, k) == None
    ensures fileExists && IsSet(ToArray(document), License) ==> pkg == ToArray(document)
    ensures !fileExists && |licenses| == 0 ==> pkg == []
    ensures (!fileExists || !IsSet(ToArray(document), License)) && |licenses| > 0 && licenses[0] != Proprietary
      ==> Get(pkg, License) == Some(Str(licenses[0]))
    ensures (!fileExists || !IsSet(ToArray(document), License)) && |licenses| > 0 && licenses[0] == Proprietary
      ==> IsSet(pkg, Private) && !IsSet(pkg, License)
  {
    var base := if fileExists then ToArray(document) else [];
    forall k | k != License && k != Private
      ensures Get(InjectRequiredKeys(base, licenses), k) == Get(base, k)
    {
      InjectEffect(base, licenses, k);
    }
    InjectEffect(base, licenses, "");
    InjectRequiredKeys(base, licenses)
  }

  /** `orderPackages`: `ksort($section, SORT_STRING)` when the section is set
      and is an array. */
  function OrderSection(pkg: Package, name: string): (r: Package)
    ensures Keys(r) == Keys(pkg)
  {
    var v := Get(pkg, name);
    if v.Some? && v.value.Arr? then Set(pkg, name, Arr(Sort(v.value.entries))) else pkg
  }

  /** Ordering leaves the section ascending by name with the same lookups,
      and touches no other key. */
  lemma OrderSectionEffect(pkg: Package, name: string, k: string, other: string)
    requires Unique(Section(pkg, name))
    requires other != name
    ensures StrictlySorted(Section(OrderSection(pkg, name), name))
    ensures Get(Section(OrderSection(pkg, name), name), k) == Get(Section(pkg, name), k)
    ensures Get(OrderSection(pkg, name), other) == Get(pkg, other)
  {
    var v := Get(pkg, name);
    if v.Some? && v.value.Arr? {
      var e := v.value.entries;
      SetLookup(pkg, name, Arr(Sort(e)), name);
      SetLookup(pkg, name, Arr(Sort(e)), other);
      SortCorrect(e);
      SortLookup(e, k);
    }
  }

  /** Ordering an already ordered section changes nothing. */
  lemma OrderSectionSorted(pkg: Package, name: string)
    requires StrictlySorted(Section(pkg, name))
    ensures OrderSection(pkg, name) == pkg
  {
    var v := Get(pkg, name);
    if v.Some? && v.value.Arr? {
      SortSorted(v.value.entries);
      SetSame(pkg, name, v.value);
    }
  }

  /** `addNewDependencies`: the shared merge, then both dependency sections
      put in order. */
  function AddNewDependencies(pkg: Package, deps: Entries<string>): (r: Result<Added>)
    ensures r.Success? <==> AddUnsorted(pkg, deps).Success?
    ensures r.Success? ==> r.value.existing == ExistingNames(InstalledDependencies(pkg), deps)
  {
    var a :- AddUnsorted(pkg, deps);
    Success(Added(OrderSection(OrderSection(a.package, Dependencies), DevDependencies), a.existing))
  }

  /** After adding, `dependencies` and `devDependencies` are ascending by
      name; each new name maps to its local specifier and every other entry
      keeps its value; no other top-level key changes. */
  lemma AddNewDependenciesEffect(pkg: Package, deps: Entries<string>, k: string, other: string)
    requires Unique(deps)
    requires Unique(Section(pkg, Dependencies)) && Unique(Section(pkg, DevDependencies))
    requires AddNewDependencies(pkg, deps).Success?
    requires other != Dependencies && other != DevDependencies
    ensures StrictlySorted(Section(AddNewDependencies(pkg, deps).value.package, Dependencies))
    ensures StrictlySorted(Section(AddNewDependencies(pkg, deps).value.package, DevDependencies))
    ensures Get(Section(AddNewDependencies(pkg, deps).value.package, Dependencies), k)
         == if HasKey(deps, k) && !IsSet(InstalledDependencies(pkg), k) then Some(LocalSpec(Get(deps, k).value))
            else Get(Section(pkg, Dependencies), k)
    ensures Get(Section(AddNewDependencies(pkg, deps).value.package, DevDependencies), k)
         == Get(Section(pkg, DevDependencies), k)
    ensures Get(AddNewDependencies(pkg, deps).value.package, other) == Get(pkg, other)
  {
    var a := AddUnsorted(pkg, deps).value.package;
    var o := OrderSection(a, Dependencies);
    AddUnsortedUnique(pkg, deps);
    AddUnsortedLookup(pkg, deps, k);
    AddUnsortedOthers(pkg, deps, DevDependencies);
    AddUnsortedOthers(pkg, deps, other);
    OrderSectionEffect(a, Dependencies, k, DevDependencies);
    OrderSectionEffect(a, Dependencies, k, other);
    OrderSectionEffect(o, DevDependencies, k, Dependencies);
    OrderSectionEffect(o, DevDependencies, k, other);
  }

  /** The names reported as existing are exactly the input names that were
      installed with a non-null value, and their entries keep their values. */
  lemma ExistingKeepValues(pkg: Package, deps: Entries<string>, n: string)
    requires Unique(deps)
    requires Unique(Section(pkg, Dependencies)) && Unique(Section(pkg, DevDependencies))
    requires AddNewDependencies(pkg, deps).Success?
    ensures n in AddNewDependencies(pkg, deps).value.existing <==> HasKey(deps, n) && IsSet(InstalledDependencies(pkg), n)
    ensures n in AddNewDependencies(pkg, deps).value.existing ==>
      Get(Section(AddNewDependencies(pkg, deps).value.package, Dependencies), n) == Get(Section(pkg, Dependencies), n)
  {
    AddNewDependenciesEffect(pkg, deps, n, "");
  }

  /** One synchronisation pass: prune, then add. */
  function Sync(pkg: Package, deps: Entries<string>): Result<Added> {
    AddNewDependencies(RemoveUnused(pkg, deps), deps)
  }

  /** Every name the pass leaves in `dependencies` under the prefix is one of
      the input names, and every input name is installed with a non-null
      value. */
  lemma SyncInstalls(pkg: Package, deps: Entries<string>, k: string)
    requires Unique(deps)
    requires forall i :: 0 <= i < |deps| ==> Owned(deps[i].0)
    requires Unique(Section(pkg, Dependencies)) && Unique(Section(pkg, DevDependencies))
    requires Sync(pkg, deps).Success?
    ensures HasKey(InstalledDependencies(Sync(pkg, deps).value.package), k) ==> HasKey(deps, k)
    ensures HasKey(deps, k) ==> IsSet(InstalledDependencies(Sync(pkg, deps).value.package), k)
  {
    var r0 := RemoveUnused(pkg, deps);
    var p1 := Sync(pkg, deps).value.package;
    RemoveUnusedUnique(pkg, deps);
    RemoveUnusedOthers(pkg, deps, DevDependencies);
    RemoveUnusedLookup(pkg, deps, k);
    AddNewDependenciesEffect(r0, deps, k, "");
    OwnedLookup(Section(p1, Dependencies), k);
    OwnedLookup(Section(r0, Dependencies), k);
    if HasKey(deps, k) {
      var i :| 0 <= i < |deps| && Keys(deps)[i] == k;
      assert Owned(deps[i].0);
    }
  }

  /** A second pass with the same input changes nothing and reports every
      input name as already installed. */
  lemma SyncIdempotent(pkg: Package, deps: Entries<string>)
    requires Unique(deps)
    requires forall i :: 0 <= i < |deps| ==> Owned(deps[i].0)
    requires Unique(Section(pkg, Dependencies)) && Unique(Section(pkg, DevDependencies))
    requires Sync(pkg, deps).Success?
    ensures Sync(Sync(pkg, deps).value.package, deps) == Success(Added(Sync(pkg, deps).value.package, Keys(deps)))
  {
    var p1 := Sync(pkg, deps).value.package;
    hide RemoveUnused, AddUnsorted, AddNewDependencies;
    SecondPruneNothing(pkg, deps);
    SecondAddNothing(pkg, deps);
    SyncSorted(pkg, deps);
    AddNothingNew(p1, deps, Keys(deps));
  }

  /** Adding where nothing is new to a document already in order returns
      the document itself. */
  lemma AddNothingNew(pkg: Package, deps: Entries<string>, existing: seq<string>)
    requires AddUnsorted(pkg, deps) == Success(Added(pkg, existing))
    requires StrictlySorted(Section(pkg, Dependencies)) && StrictlySorted(Section(pkg, DevDependencies))
    ensures AddNewDependencies(pkg, deps) == Success(Added(pkg, existing))
  {
    OrderSectionSorted(pkg, Dependencies);
    OrderSectionSorted(pkg, DevDependencies);
  }

  /** After one pass, both dependency sections are in order. */
  lemma SyncSorted(pkg: Package, deps: Entries<string>)
    requires Unique(deps)
    requires Unique(Section(pkg, Dependencies)) && Unique(Section(pkg, DevDependencies))
    requires Sync(pkg, deps).Success?
    ensures StrictlySorted(Section(Sync(pkg, deps).value.package, Dependencies))
    ensures StrictlySorted(Section(Sync(pkg, deps).value.package, DevDependencies))
  {
    var r0 := RemoveUnused(pkg, deps);
    RemoveUnusedUnique(pkg, deps);
    RemoveUnusedOthers(pkg, deps, DevDependencies);
    AddNewDependenciesEffect(r0, deps, "", "");
  }

  /** The pruning of a second pass finds nothing to remove. */
  lemma SecondPruneNothing(pkg: Package, deps: Entries<string>)
    requires Unique(deps)
    requires forall i :: 0 <= i < |deps| ==> Owned(deps[i].0)
    requires Unique(Section(pkg, Dependencies)) && Unique(Section(pkg, DevDependencies))
    requires Sync(pkg, deps).Success?
    ensures RemoveUnused(Sync(pkg, deps).value.package, deps) == Sync(pkg, deps).value.package
  {
    var p1 := Sync(pkg, deps).value.package;
    var gone := UnusedNames(InstalledDependencies(p1), deps);
    if |gone| > 0 {
      SyncInstalls(pkg, deps, gone[0]);
      assert false;
    }
  }

  /** The adding of a second pass finds every name installed. */
  lemma SecondAddNothing(pkg: Package, deps: Entries<string>)
    requires Unique(deps)
    requires forall i :: 0 <= i < |deps| ==> Owned(deps[i].0)
    requires Unique(Section(pkg, Dependencies)) && Unique(Section(pkg, DevDependencies))
    requires Sync(pkg, deps).Success?
    ensures AddUnsorted(Sync(pkg, deps).value.package, deps) == Success(Added(Sync(pkg, deps).value.package, Keys(deps)))
  {
    hide Sync, RemoveUnused;
    var p1 := Sync(pkg, deps).value.package;
    forall i | 0 <= i < |deps|
      ensures IsSet(InstalledDependencies(p1), deps[i].0)
    {
      assert Keys(deps)[i] == deps[i].0;
      SyncInstalls(pkg, deps, deps[i].0);
    }
    NothingFresh(InstalledDependencies(p1), deps);
  }

  const License: string := "license"
  const Private: string := "private"
  const Proprietary: string := "proprietary"

  /** `injectRequiredKeys`: without a license of its own, the document takes
      the first license of the root package, except that `proprietary` only
      marks the document private when `private` is not set yet. */
  function InjectRequiredKeys(pkg: Package, licenses: seq<string>): Package {
    if !IsSet(pkg, License) && |licenses| > 0 then
      if licenses[0] == Proprietary then
        if !IsSet(pkg, Private) then Set(pkg, Private, Bool(true)) else pkg
      else Set(pkg, License, Str(licenses[0]))
    else pkg
  }

  /** An existing license is kept, `proprietary` is never written as the
      license, and any other first license is; `private` becomes `true` on a
      `proprietary` license only when it was not set, and keeps its value
      otherwise; only `license` and `private` can change. */
  lemma InjectEffect(pkg: Package, licenses: seq<string>, other: string)
    requires other != License && other != Private
    ensures IsSet(pkg, License) || |licenses| == 0 ==> InjectRequiredKeys(pkg, licenses) == pkg
    ensures !IsSet(pkg, License) && |licenses| > 0 && licenses[0] == Proprietary ==>
      Get(InjectRequiredKeys(pkg, licenses), License) == Get(pkg, License)
      && IsSet(InjectRequiredKeys(pkg, licenses), Private)
      && Get(InjectRequiredKeys(pkg, licenses), Private) == (if IsSet(pkg, Private) then Get(pkg, Private) else Some(Bool(true)))
      && (IsSet(pkg, Private) ==> InjectRequiredKeys(pkg, licenses) == pkg)
    ensures !IsSet(pkg, License) && |licenses| > 0 && licenses[0] != Proprietary ==>
      Get(InjectRequiredKeys(pkg, licenses), License) == Some(Str(licenses[0]))
      && Get(InjectRequiredKeys(pkg, licenses), Private) == Get(pkg, Private)
    ensures Get(InjectRequiredKeys(pkg, licenses), other) == Get(pkg, other)
  {
    SetLookup(pkg, Private, Bool(true), other);
    SetLookup(pkg, Private, Bool(true), Private);
    SetLookup(pkg, Private, Bool(true), License);
    if |licenses| > 0 {
      SetLookup(pkg, License, Str(licenses[0]), other);
      SetLookup(pkg, License, Str(licenses[0]), License);
      SetLookup(pkg, License, Str(licenses[0]), Private);
    }
  }

  /** Injecting twice is injecting once. */
  lemma InjectIdempotent(pkg: Package, licenses: seq<string>)
    ensures InjectRequiredKeys(InjectRequiredKeys(pkg, licenses), licenses) == InjectRequiredKeys(pkg, licenses)
  {
    if !IsSet(pkg, License) && |licenses| > 0 {
      if licenses[0] == Proprietary {
        if !IsSet(pkg, Private) {
          var p1 := Set(pkg, Private, Bool(true));
          SetLookup(pkg, Private, Bool(true), License);
          SetLookup(pkg, Private, Bool(true), Private);
          assert !IsSet(p1, License) && IsSet(p1, Private);
        }
      } else {
        SetLookup(pkg, License, Str(licenses[0]), License);
      }
    }
  }
}
