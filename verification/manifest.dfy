/** The dependency bookkeeping shared by both revisions of the asset package
    (the `package.json` document Foxy maintains): the owned
    entries prefixed `@composer-asset/` of the `dependencies` section are listed,
    pruned and extended from the map of asset packages Composer installed. */
module Manifest {
  import opened Wrappers
  import Strings
  import opened OrderedMap
  import opened PhpValue

  /** The decoded `package.json` document. */
  type Package = Entries<Value>

  const Dependencies: string := "dependencies"
  const DevDependencies: string := "devDependencies"
  const ComposerPrefix: string := "@composer-asset/"

  /** An entry Foxy manages: its name carries the Composer asset prefix. */
  predicate Owned(name: string) {
    Strings.StartsWith(name, ComposerPrefix)
  }

  /** The index of the last `/` of `s`, or -1. */
  function LastSlash(s: string): (r: int)
    ensures -1 <= r < |s|
    ensures r >= 0 ==> s[r] == '/'
    ensures forall i :: r < i < |s| ==> s[i] != '/'
    decreases |s|
  {
    if |s| == 0 then -1
    else if s[|s| - 1] == '/' then |s| - 1
    else LastSlash(s[..|s| - 1])
  }

  /** PHP's `dirname` on a POSIX path: trailing slashes are ignored, the part
      before the last slash is kept without its own trailing slashes, a bare
      name gives ".", and the root stays "/". */
  function Dirname(path: string): string {
    if path == "" then ""
    else
      var p := Strings.TrimRight(path, {'/'});
      if p == "" then "/"
      else
        var i := LastSlash(p);
        if i < 0 then "."
        else
          var d := Strings.TrimRight(p[..i], {'/'});
          if d == "" then "/" else d
  }

  /** The directory of `d + "/" + f` is `d` for a file name `f`. */
  lemma DirnameOfJoin(d: string, f: string)
    requires |d| > 0 && d[|d| - 1] != '/'
    requires |f| > 0 && '/' !in f
    ensures Dirname(d + "/" + f) == d
  {
    var path := d + "/" + f;
    Strings.TrimRightStops(path, {'/'});
    assert path[|path| - 1] == f[|f| - 1];
    assert forall i :: |d| < i < |path| ==> path[i] == f[i - |d| - 1];
    var i := LastSlash(path);
    assert path[|d|] == '/';
    assert i == |d|;
    assert path[..i] == d;
    Strings.TrimRightStops(d, {'/'});
  }

  /** A bare file name lies in the current directory. */
  lemma DirnameOfName(f: string)
    requires |f| > 0 && '/' !in f
    ensures Dirname(f) == "."
  {
    Strings.TrimRightStops(f, {'/'});
    assert forall i :: 0 <= i < |f| ==> f[i] != '/';
  }

  /** The specifier written for a new asset: `'file:./' . dirname($path)`. */
  function LocalSpec(path: string): Value {
    Str("file:./" + Dirname(path))
  }

  /** A section of the document when it is set and is an array, else empty. */
  function Section(pkg: Package, name: string): Entries<Value> {
    var v := Get(pkg, name);
    if v.Some? && v.value.Arr? then v.value.entries else []
  }

  /** The owned entries of a section, in their order. */
  function OwnedEntries(m: Entries<Value>): (r: Entries<Value>)
    ensures forall e :: e in r <==> e in m && Owned(e.0)
    decreases |m|
  {
    if |m| == 0 then []
    else
      assert m == [m[0]] + m[1..];
      (if Owned(m[0].0) then [m[0]] else []) + OwnedEntries(m[1..])
  }

  /** Looking a name up among the owned entries finds what the section
      holds under an owned name, and nothing under any other name. */
  lemma {:induction false} OwnedLookup(m: Entries<Value>, k: string)
    ensures Get(OwnedEntries(m), k) == if Owned(k) then Get(m, k) else None
    decreases |m|
  {
    if |m| > 0 {
      OwnedLookup(m[1..], k);
      var rest := OwnedEntries(m[1..]);
      if Owned(m[0].0) {
        assert ([m[0]] + rest)[1..] == rest;
      } else {
        assert [] + rest == rest;
      }
    }
  }

  /** `getInstalledDependencies`: the owned entries of `dependencies`, or
      nothing when that section is missing or not an array. */
  function InstalledDependencies(pkg: Package): (r: Entries<Value>)
    ensures forall e :: e in r <==> e in Section(pkg, Dependencies) && Owned(e.0)
  {
    OwnedEntries(Section(pkg, Dependencies))
  }

  /** The names of `deps`, in order, that are already installed with a
      non-null value. */
  function ExistingNames(installed: Entries<Value>, deps: Entries<string>): (r: seq<string>)
    ensures forall n :: n in r <==> HasKey(deps, n) && IsSet(installed, n)
    decreases |deps|
  {
    if |deps| == 0 then []
    else (if IsSet(installed, deps[0].0) then [deps[0].0] else []) + ExistingNames(installed, deps[1..])
  }

  /** The entries `addNewDependencies` writes: one per name that is not
      installed yet, in input order. */
  function FreshEntries(installed: Entries<Value>, deps: Entries<string>): (r: Entries<Value>)
    ensures |r| <= |deps|
    decreases |deps|
  {
    if |deps| == 0 then []
    else if IsSet(installed, deps[0].0) then FreshEntries(installed, deps[1..])
    else [(deps[0].0, LocalSpec(deps[0].1))] + FreshEntries(installed, deps[1..])
  }

  lemma {:induction false} FreshLookup(installed: Entries<Value>, deps: Entries<string>, k: string)
    requires Unique(deps)
    ensures Get(FreshEntries(installed, deps), k)
         == if HasKey(deps, k) && !IsSet(installed, k) then Some(LocalSpec(Get(deps, k).value)) else None
    decreases |deps|
  {
    if |deps| > 0 {
      assert Unique(deps[1..]);
      FreshLookup(installed, deps[1..], k);
      if deps[0].0 == k {
        assert !HasKey(deps[1..], k);
      }
    }
  }

  /** Every name written comes from the input and was not installed. */
  lemma {:induction false} FreshKeys(installed: Entries<Value>, deps: Entries<string>, k: string)
    ensures HasKey(FreshEntries(installed, deps), k) ==> HasKey(deps, k) && !IsSet(installed, k)
    decreases |deps|
  {
    if |deps| > 0 {
      FreshKeys(installed, deps[1..], k);
    }
  }

  lemma {:induction false} FreshUnique(installed: Entries<Value>, deps: Entries<string>)
    requires Unique(deps)
    ensures Unique(FreshEntries(installed, deps))
    decreases |deps|
  {
    if |deps| > 0 {
      assert Unique(deps[1..]);
      FreshUnique(installed, deps[1..]);
      var rest := FreshEntries(installed, deps[1..]);
      if !IsSet(installed, deps[0].0) {
        forall i | 0 <= i < |rest|
          ensures rest[i].0 != deps[0].0
        {
          assert Keys(rest)[i] == rest[i].0;
          FreshKeys(installed, deps[1..], rest[i].0);
          var j :| 0 <= j < |deps[1..]| && Keys(deps[1..])[j] == rest[i].0;
          assert deps[j + 1].0 == rest[i].0;
        }
      }
    }
  }

  /** Nothing is left to write when every name is already installed. */
  lemma {:induction false} NothingFresh(installed: Entries<Value>, deps: Entries<string>)
    requires forall i :: 0 <= i < |deps| ==> IsSet(installed, deps[i].0)
    ensures FreshEntries(installed, deps) == []
    ensures ExistingNames(installed, deps) == Keys(deps)
    decreases |deps|
  {
    if |deps| > 0 {
      NothingFresh(installed, deps[1..]);
    }
  }

  /** The assignments `$m[$k] = $v` of `w`, in order. */
  function SetAll(m: Entries<Value>, w: Entries<Value>): Entries<Value>
    decreases |w|
  {
    if |w| == 0 then m else SetAll(Set(m, w[0].0, w[0].1), w[1..])
  }

  lemma {:induction false} SetAllLookup(m: Entries<Value>, w: Entries<Value>, k: string)
    requires Unique(w)
    ensures Get(SetAll(m, w), k) == if HasKey(w, k) then Get(w, k) else Get(m, k)
    decreases |w|
  {
    if |w| > 0 {
      assert Unique(w[1..]);
      SetAllLookup(Set(m, w[0].0, w[0].1), w[1..], k);
      SetLookup(m, w[0].0, w[0].1, k);
      if w[0].0 == k {
        assert !HasKey(w[1..], k);
      }
    }
  }

  lemma {:induction false} SetAllUnique(m: Entries<Value>, w: Entries<Value>)
    requires Unique(m)
    ensures Unique(SetAll(m, w))
    decreases |w|
  {
    if |w| > 0 {
      SetUnique(m, w[0].0, w[0].1);
      SetAllUnique(Set(m, w[0].0, w[0].1), w[1..]);
    }
  }

  /** Assignments keep the existing keys in place and append new ones. */
  lemma {:induction false} SetAllKeepsOrder(m: Entries<Value>, w: Entries<Value>)
    ensures |Keys(m)| <= |Keys(SetAll(m, w))|
    ensures Keys(SetAll(m, w))[..|m|] == Keys(m)
    decreases |w|
  {
    if |w| > 0 {
      var m' := Set(m, w[0].0, w[0].1);
      SetAllKeepsOrder(m', w[1..]);
      if !HasKey(m, w[0].0) {
        KeysAppend(m, [(w[0].0, w[0].1)]);
      }
      assert Keys(m')[..|m|] == Keys(m);
    }
  }

  /** `unset($m[$k])` for every `k` of `ks`. */
  function RemoveAll(m: Entries<Value>, ks: seq<string>): Entries<Value>
    decreases |ks|
  {
    if |ks| == 0 then m else RemoveAll(Remove(m, ks[0]), ks[1..])
  }

  lemma {:induction false} RemoveAllLookup(m: Entries<Value>, ks: seq<string>, k: string)
    ensures Get(RemoveAll(m, ks), k) == if k in ks then None else Get(m, k)
    decreases |ks|
  {
    if |ks| > 0 {
      RemoveAllLookup(Remove(m, ks[0]), ks[1..], k);
      RemoveLookup(m, ks[0], k);
    }
  }

  lemma {:induction false} RemoveAllUnique(m: Entries<Value>, ks: seq<string>)
    requires Unique(m)
    ensures Unique(RemoveAll(m, ks))
    decreases |ks|
  {
    if |ks| > 0 {
      RemoveUnique(m, ks[0]);
      RemoveAllUnique(Remove(m, ks[0]), ks[1..]);
    }
  }

  /** `array_keys(array_diff_key($installed, $deps))`. */
  function UnusedNames(installed: Entries<Value>, deps: Entries<string>): (r: seq<string>)
    ensures forall k :: k in r <==> HasKey(installed, k) && !HasKey(deps, k)
    decreases |installed|
  {
    if |installed| == 0 then []
    else (if HasKey(deps, installed[0].0) then [] else [installed[0].0]) + UnusedNames(installed[1..], deps)
  }

  /** `removeUnusedDependencies`: unset every installed entry whose name the
      input map lacks; the document is untouched when there is none. */
  function RemoveUnused(pkg: Package, deps: Entries<string>): Package {
    var gone := UnusedNames(InstalledDependencies(pkg), deps);
    if |gone| == 0 then pkg
    else Set(pkg, Dependencies, Arr(RemoveAll(Section(pkg, Dependencies), gone)))
  }

  /** After the pruning, exactly the owned entries missing from the input are
      gone from `dependencies`; every other entry, owned or not, stays. */
  lemma RemoveUnusedLookup(pkg: Package, deps: Entries<string>, k: string)
    ensures Get(Section(RemoveUnused(pkg, deps), Dependencies), k)
         == if Owned(k) && !HasKey(deps, k) then None else Get(Section(pkg, Dependencies), k)
  {
    var s := Section(pkg, Dependencies);
    var installed := InstalledDependencies(pkg);
    var gone := UnusedNames(installed, deps);
    OwnedLookup(s, k);
    if |gone| > 0 {
      assert HasKey(installed, gone[0]);
      SetLookup(pkg, Dependencies, Arr(RemoveAll(s, gone)), Dependencies);
      RemoveAllLookup(s, gone, k);
    }
  }

  /** The pruning changes no top-level key but `dependencies`, and no key
      moves. */
  lemma RemoveUnusedOthers(pkg: Package, deps: Entries<string>, k: string)
    requires k != Dependencies
    ensures Get(RemoveUnused(pkg, deps), k) == Get(pkg, k)
    ensures Keys(RemoveUnused(pkg, deps)) == Keys(pkg)
  {
    var gone := UnusedNames(InstalledDependencies(pkg), deps);
    if |gone| > 0 {
      assert HasKey(InstalledDependencies(pkg), gone[0]);
      OwnedLookup(Section(pkg, Dependencies), gone[0]);
      SetLookup(pkg, Dependencies, Arr(RemoveAll(Section(pkg, Dependencies), gone)), k);
    }
  }

  lemma RemoveUnusedUnique(pkg: Package, deps: Entries<string>)
    requires Unique(Section(pkg, Dependencies))
    ensures Unique(Section(RemoveUnused(pkg, deps), Dependencies))
  {
    var gone := UnusedNames(InstalledDependencies(pkg), deps);
    if |gone| > 0 {
      SetLookup(pkg, Dependencies, Arr(RemoveAll(Section(pkg, Dependencies), gone)), Dependencies);
      RemoveAllUnique(Section(pkg, Dependencies), gone);
    }
  }

  /** The section `$package['dependencies'][$name] = ...` writes into:
      missing, null and false become an empty array; a string rejects the
      named offset, and `true` or a number cannot be used as an array. */
  function WritableSection(v: Option<Value>): (r: Result<Entries<Value>>)
    ensures r.Failure? <==> v.Some? && !v.value.Arr? && v.value != Null && v.value != Bool(false)
    ensures r.Success? && v.Some? && v.value.Arr? ==> r.value == v.value.entries
    ensures r.Success? && !(v.Some? && v.value.Arr?) ==> r.value == []
    ensures r.Failure? && v.value.Str? ==> r.error == StringOffset
    ensures r.Failure? && !v.value.Str? ==> r.error == TypeError("Cannot use a scalar value as an array")
  {
    if v.None? || v.value == Null || v.value == Bool(false) then Success([])
    else if v.value.Arr? then Success(v.value.entries)
    else if v.value.Str? then Failure(StringOffset)
    else Failure(TypeError("Cannot use a scalar value as an array"))
  }

  /** The outcome of `addNewDependencies`: the document and the names found
      already installed. */
  datatype Added = Added(package: Package, existing: seq<string>)

  /** `addNewDependencies` without the final ordering (the legacy revision):
      names already installed are reported, every other name gets a local
      `file:` specifier. */
  function AddUnsorted(pkg: Package, deps: Entries<string>): (r: Result<Added>)
    ensures r.Failure? ==> |FreshEntries(InstalledDependencies(pkg), deps)| > 0
    ensures r.Success? ==> r.value.existing == ExistingNames(InstalledDependencies(pkg), deps)
  {
    var installed := InstalledDependencies(pkg);
    var writes := FreshEntries(installed, deps);
    var existing := ExistingNames(installed, deps);
    if |writes| == 0 then Success(Added(pkg, existing))
    else
      var section :- WritableSection(Get(pkg, Dependencies));
      Success(Added(Set(pkg, Dependencies, Arr(SetAll(section, writes))), existing))
  }

  /** Each name that was not installed now maps to its local specifier;
      every other entry of `dependencies` keeps its value. */
  lemma AddUnsortedLookup(pkg: Package, deps: Entries<string>, k: string)
    requires Unique(deps)
    requires AddUnsorted(pkg, deps).Success?
    ensures Get(Section(AddUnsorted(pkg, deps).value.package, Dependencies), k)
         == if HasKey(deps, k) && !IsSet(InstalledDependencies(pkg), k) then Some(LocalSpec(Get(deps, k).value))
            else Get(Section(pkg, Dependencies), k)
  {
    var installed := InstalledDependencies(pkg);
    var writes := FreshEntries(installed, deps);
    FreshLookup(installed, deps, k);
    if |writes| > 0 {
      var section := WritableSection(Get(pkg, Dependencies)).value;
      FreshUnique(installed, deps);
      SetLookup(pkg, Dependencies, Arr(SetAll(section, writes)), Dependencies);
      SetAllLookup(section, writes, k);
    }
  }

  /** Adding fails only when `dependencies` holds a scalar that PHP cannot
      turn into an array and there is something to write. */
  lemma AddUnsortedFailure(pkg: Package, deps: Entries<string>)
    ensures AddUnsorted(pkg, deps).Failure? <==>
      |FreshEntries(InstalledDependencies(pkg), deps)| > 0 && WritableSection(Get(pkg, Dependencies)).Failure?
  {
  }

  /** Adding changes no top-level key but `dependencies`, which is appended
      when it was missing. */
  lemma AddUnsortedOthers(pkg: Package, deps: Entries<string>, k: string)
    requires AddUnsorted(pkg, deps).Success?
    requires k != Dependencies
    ensures Get(AddUnsorted(pkg, deps).value.package, k) == Get(pkg, k)
  {
    var installed := InstalledDependencies(pkg);
    var writes := FreshEntries(installed, deps);
    if |writes| > 0 {
      var section := WritableSection(Get(pkg, Dependencies)).value;
      SetLookup(pkg, Dependencies, Arr(SetAll(section, writes)), k);
    }
  }

  /** Without sorting, the entries already in `dependencies` keep their
      places and new names follow them. */
  lemma AddUnsortedAppends(pkg: Package, deps: Entries<string>)
    requires AddUnsorted(pkg, deps).Success?
    ensures var s := Section(AddUnsorted(pkg, deps).value.package, Dependencies);
      |Section(pkg, Dependencies)| <= |s| && Keys(s)[..|Section(pkg, Dependencies)|] == Keys(Section(pkg, Dependencies))
  {
    var installed := InstalledDependencies(pkg);
    var writes := FreshEntries(installed, deps);
    if |writes| > 0 {
      var section := WritableSection(Get(pkg, Dependencies)).value;
      SetLookup(pkg, Dependencies, Arr(SetAll(section, writes)), Dependencies);
      SetAllKeepsOrder(section, writes);
    }
  }

  lemma AddUnsortedUnique(pkg: Package, deps: Entries<string>)
    requires Unique(Section(pkg, Dependencies))
    requires AddUnsorted(pkg, deps).Success?
    ensures Unique(Section(AddUnsorted(pkg, deps).value.package, Dependencies))
  {
    var installed := InstalledDependencies(pkg);
    var writes := FreshEntries(installed, deps);
    if |writes| > 0 {
      var section := WritableSection(Get(pkg, Dependencies)).value;
      SetLookup(pkg, Dependencies, Arr(SetAll(section, writes)), Dependencies);
      SetAllUnique(section, writes);
    }
  }
}
