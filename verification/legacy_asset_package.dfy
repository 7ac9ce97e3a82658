/** The older revision of the asset package (`AssetPackage/AssetPackage.php`):
    it keeps the bytes the file held when the package was opened so that
    `restore` can put them back, does not order the dependency sections, and
    injects `license` / `private` by a slightly different rule. */
module LegacyAssetPackage {
  import opened Wrappers
  import opened OrderedMap
  import opened PhpValue
  import opened Manifest
  import opened Files
  import AssetPackage

  /** The package file, its decoded document and the original bytes. */
  datatype State = State(path: string, package: Package, originalContent: Option<string>)

  /** The constructor: when the file exists its bytes are kept and its
      decoded document, cast to an array, becomes the package; then the
      required keys are injected. `decode` is the JSON reader, which fails on
      malformed content. */
  function Open(fs: Tree, path: string, decode: string -> Result<Value>, licenses: seq<string>): (r: Result<State>)
    ensures r.Success? ==> r.value.path == path
    ensures r.Success? && IsFile(fs, path) ==> r.value.originalContent == Some(fs[path].content)
    ensures r.Success? && !IsFile(fs, path) ==> r.value.originalContent == None
    ensures !IsFile(fs, path) ==> r == Success(State(path, InjectRequiredKeys([], licenses), None))
    ensures r.Failure? <==> IsFile(fs, path) && decode(fs[path].content).Failure?
  {
    if IsFile(fs, path) then
      var content := fs[path].content;
      var document :- decode(content);
      Success(State(path, InjectRequiredKeys(ToArray(document), licenses), Some(content)))
    else Success(State(path, InjectRequiredKeys([], licenses), None))
  }

  /** `getOriginalContent`. */
  function OriginalContent(s: State): Option<string> {
    s.originalContent
  }

  /** `write`: the JSON writer `encode` receives the package as it stands
      and its text replaces the file. */
  function Write(s: State, fs: Tree, encode: Package -> string): (fs': Tree)
    ensures IsFile(fs', s.path) && fs'[s.path].content == encode(s.package)
    ensures forall p :: p != s.path ==> (p in fs' <==> p in fs) && (p in fs ==> fs'[p] == fs[p])
  {
    PutFile(fs, s.path, encode(s.package))
  }

  /** The effects of `restore`: remove the file, then write back the
      original bytes if there were any. */
  function RestoreEffects(s: State): seq<Effect> {
    [Remove(s.path)] + (if s.originalContent.Some? then [Put(s.path, s.originalContent.value)] else [])
  }

  /** `restore`, whatever the file system looks like by then: the file holds
      exactly the original bytes, or is absent when there were none; nothing
      outside the path changes. */
  function Restore(s: State, fs: Tree): (fs': Tree)
    ensures s.originalContent.Some? ==> IsFile(fs', s.path) && fs'[s.path].content == s.originalContent.value
    ensures s.originalContent.None? ==> !Exists(fs', s.path)
    ensures forall p :: !Under(p, s.path) ==> (p in fs' <==> p in fs) && (p in fs ==> fs'[p] == fs[p])
  {
    var removed := RemoveTree(fs, s.path);
    if s.originalContent.Some? then PutFile(removed, s.path, s.originalContent.value) else removed
  }

  /** Carrying out the effects of `restore` in order gives the restored tree. */
  lemma RestoreEffectsApply(s: State, fs: Tree)
    ensures RemoveCount(RestoreEffects(s), s.path) == 1
    ensures Apply(fs, RestoreEffects(s)) == Restore(s, fs)
  {
    var effects := RestoreEffects(s);
    assert effects[0] == Remove(s.path);
    var removed := RemoveTree(fs, s.path);
    if s.originalContent.Some? {
      var put := PutFile(removed, s.path, s.originalContent.value);
      assert effects[1..] == [Put(s.path, s.originalContent.value)];
      assert effects[1..][1..] == [];
      assert RemoveCount(effects[1..], s.path) == 0 + RemoveCount([], s.path);
      assert Apply(removed, effects[1..]) == Apply(put, []);
    } else {
      assert effects[1..] == [];
    }
  }

  /** Opening, writing and restoring puts the file back as it was: the same
      bytes when it existed, no file when it did not. */
  lemma OpenWriteRestore(fs: Tree, path: string, decode: string -> Result<Value>, licenses: seq<string>, encode: Package -> string)
    requires Open(fs, path, decode, licenses).Success?
    ensures var s := Open(fs, path, decode, licenses).value;
      var fs' := Restore(s, Write(s, fs, encode));
      (IsFile(fs, path) ==> IsFile(fs', path) && fs'[path] == fs[path])
      && (!IsFile(fs, path) ==> !Exists(fs', path))
  {
  }

  /** `injectRequiredKeys` of this revision: `proprietary` marks the package
      private when `private` is not set, and is otherwise copied to `license`
      like any other first license. */
  function InjectRequiredKeys(pkg: Package, licenses: seq<string>): Package {
    if !IsSet(pkg, AssetPackage.License) && |licenses| > 0 then
      if licenses[0] == AssetPackage.Proprietary && !IsSet(pkg, AssetPackage.Private) then
        Set(pkg, AssetPackage.Private, Bool(true))
      else Set(pkg, AssetPackage.License, Str(licenses[0]))
    else pkg
  }

  /** An existing license is kept; otherwise the package ends up with a
      license (and `private` as it was) or marked private, and only those
      two keys can change. */
  lemma InjectEffect(pkg: Package, licenses: seq<string>, other: string)
    requires other != AssetPackage.License && other != AssetPackage.Private
    ensures IsSet(pkg, AssetPackage.License) || |licenses| == 0 ==> InjectRequiredKeys(pkg, licenses) == pkg
    ensures !IsSet(pkg, AssetPackage.License) && |licenses| > 0 ==>
      if licenses[0] == AssetPackage.Proprietary && !IsSet(pkg, AssetPackage.Private)
      then Get(InjectRequiredKeys(pkg, licenses), AssetPackage.Private) == Some(Bool(true))
        && Get(InjectRequiredKeys(pkg, licenses), AssetPackage.License) == Get(pkg, AssetPackage.License)
      else (Get(InjectRequiredKeys(pkg, licenses), AssetPackage.License) == Some(Str(licenses[0]))
        && Get(InjectRequiredKeys(pkg, licenses), AssetPackage.Private) == Get(pkg, AssetPackage.Private))
    ensures Get(InjectRequiredKeys(pkg, licenses), other) == Get(pkg, other)
  {
    SetLookup(pkg, AssetPackage.Private, Bool(true), other);
    SetLookup(pkg, AssetPackage.Private, Bool(true), AssetPackage.Private);
    SetLookup(pkg, AssetPackage.Private, Bool(true), AssetPackage.License);
    if |licenses| > 0 {
      SetLookup(pkg, AssetPackage.License, Str(licenses[0]), other);
      SetLookup(pkg, AssetPackage.License, Str(licenses[0]), AssetPackage.License);
      SetLookup(pkg, AssetPackage.License, Str(licenses[0]), AssetPackage.Private);
    }
  }

  /** The two revisions part ways on a `proprietary` root license when the
      package is already private: this one writes the license, the current
      one leaves the package alone. */
  lemma InjectRevisionsDiffer(pkg: Package, licenses: seq<string>)
    requires !IsSet(pkg, AssetPackage.License) && IsSet(pkg, AssetPackage.Private)
    requires |licenses| > 0 && licenses[0] == AssetPackage.Proprietary
    ensures AssetPackage.InjectRequiredKeys(pkg, licenses) == pkg
    ensures Get(InjectRequiredKeys(pkg, licenses), AssetPackage.License) == Some(Str(AssetPackage.Proprietary))
  {
    SetLookup(pkg, AssetPackage.License, Str(licenses[0]), AssetPackage.License);
  }
}
