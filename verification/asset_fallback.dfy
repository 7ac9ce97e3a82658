/** The fallback of the asset package file (`Fallback/AssetFallback.php`):
    `save` remembers the bytes of the file, `restore` puts them back when the
    `fallback-asset` option is enabled. */
module AssetFallback {
  import opened Wrappers
  import opened PhpValue
  import opened Files

  /** The watched path and the bytes saved from it, if any. */
  datatype Fallback = Fallback(path: string, originalContent: Option<string>)

  const RestoreMessage: string := "<info>Fallback to previous state for the Asset package</info>"

  /** A fresh fallback has saved nothing. */
  function New(path: string): (f: Fallback)
    ensures f.path == path && f.originalContent.None?
  {
    Fallback(path, None)
  }

  /** `save`: only a regular file is read; otherwise whatever was saved
      before is kept. */
  function Save(f: Fallback, fs: Tree): (r: Fallback)
    ensures r.path == f.path
    ensures IsFile(fs, f.path) ==> r.originalContent == Some(fs[f.path].content)
    ensures !IsFile(fs, f.path) ==> r == f
  {
    if Exists(fs, f.path) && IsFile(fs, f.path) then f.(originalContent := Some(fs[f.path].content))
    else f
  }

  /** The effects of `restore` given the value of `fallback-asset` read from
      the configuration; an exception raised by the read propagates. */
  function Restore(f: Fallback, setting: Result<Value>): (r: Result<seq<Effect>>)
    ensures setting.Failure? <==> r.Failure?
    ensures setting.Success? && !Truthy(setting.value) ==> r == Success([])
    ensures setting.Success? && Truthy(setting.value) ==>
      r.Success? && Messages(r.value) == [RestoreMessage] && RemoveCount(r.value, f.path) == 1
  {
    var enabled :- setting;
    if !Truthy(enabled) then Success([])
    else
      var effects := [Output(RestoreMessage), Remove(f.path)]
        + (if f.originalContent.Some? then [Put(f.path, f.originalContent.value)] else []);
      assert effects[1..][1..] == if f.originalContent.Some? then [Put(f.path, f.originalContent.value)] else [];
      assert Messages(effects[1..][1..]) == [];
      assert RemoveCount(effects[1..][1..], f.path) == 0;
      Success(effects)
  }

  /** An enabled restore leaves the saved bytes at the path, or no file when
      nothing was saved; paths outside it keep their nodes. */
  lemma RestoreEffect(f: Fallback, fs: Tree, setting: Value)
    requires Truthy(setting)
    ensures var fs' := Apply(fs, Restore(f, Success(setting)).value);
      (f.originalContent.Some? ==> IsFile(fs', f.path) && fs'[f.path].content == f.originalContent.value)
      && (f.originalContent.None? ==> !Exists(fs', f.path))
      && (forall p :: !Under(p, f.path) ==> (p in fs' <==> p in fs) && (p in fs ==> fs'[p] == fs[p]))
      && (forall p :: Under(p, f.path) && p != f.path ==> p !in fs')
  {
    var effects := Restore(f, Success(setting)).value;
    var tail := effects[1..];
    assert Apply(fs, effects) == Apply(fs, tail);
    if f.originalContent.Some? {
      assert tail == [Remove(f.path), Put(f.path, f.originalContent.value)];
      RemoveThenPut(fs, f.path, f.originalContent.value);
    } else {
      assert tail[1..] == [];
      assert Apply(fs, tail) == Apply(RemoveTree(fs, f.path), []);
    }
  }

  /** Restoring twice leaves the tree as restoring once. */
  lemma RestoreIdempotent(f: Fallback, fs: Tree, setting: Value)
    ensures var effects := Restore(f, Success(setting)).value;
      Apply(Apply(fs, effects), effects) == Apply(fs, effects)
  {
    var effects := Restore(f, Success(setting)).value;
    if Truthy(setting) {
      var once := Apply(fs, effects);
      var twice := Apply(once, effects);
      RestoreEffect(f, fs, setting);
      RestoreEffect(f, once, setting);
      assert forall p :: p in twice <==> p in once;
      assert forall p :: p in twice ==> twice[p] == once[p];
    }
  }

  /** Saving a file, letting anything happen to the tree, then restoring
      with the option enabled brings the file's bytes back. */
  lemma SaveThenRestore(f: Fallback, fs: Tree, later: Tree, setting: Value)
    requires IsFile(fs, f.path) && Truthy(setting)
    ensures var fs' := Apply(later, Restore(Save(f, fs), Success(setting)).value);
      IsFile(fs', f.path) && fs'[f.path] == fs[f.path]
  {
    RestoreEffect(Save(f, fs), later, setting);
  }

  /** With no file at the path and nothing saved, an enabled restore leaves
      no file there, whatever was written in between. */
  lemma SaveAbsentThenRestore(path: string, fs: Tree, later: Tree, setting: Value)
    requires !IsFile(fs, path) && Truthy(setting)
    ensures !Exists(Apply(later, Restore(Save(New(path), fs), Success(setting)).value), path)
  {
    RestoreEffect(Save(New(path), fs), later, setting);
  }
}
