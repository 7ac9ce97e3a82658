/** The helpers that name a Composer package inside the asset manifest and
    decide whether, and where, it ships an asset manifest of its own. */
module AssetUtil {
  import opened Wrappers
  import Strings
  import Manifest

  /** A Composer requirement link: the package that requires, and the one
      required. */
  datatype Link = Link(source: string, target: string)

  /** The Composer package name of this plugin. */
  const PluginName: string := "foxy/foxy"

  /** `getName`: the asset-manifest name of a Composer package, its name with
      every `/` replaced by `--` behind the Composer asset prefix. */
  function GetName(packageName: string): (r: string)
    ensures Manifest.Owned(r)
    ensures r[..|Manifest.ComposerPrefix|] == Manifest.ComposerPrefix
    ensures '/' !in r[|Manifest.ComposerPrefix|..]
  {
    Strings.ReplaceCharRemovesIt(packageName, '/', "--");
    var r := Manifest.ComposerPrefix + Strings.ReplaceAll(packageName, "/", "--");
    assert r[|Manifest.ComposerPrefix|..] == Strings.ReplaceAll(packageName, "/", "--");
    r
  }

  /** The Composer package name an asset-manifest name stands for, undoing
      `GetName` for names without a dash. */
  function PackageName(assetName: string): string
    requires Manifest.Owned(assetName)
  {
    Strings.ReplaceAll(assetName[|Manifest.ComposerPrefix|..], "--", "/")
  }

  /** Turning every `/` into `--` and back restores a name without dashes. */
  lemma {:induction false} SlashRoundTrip(name: string)
    requires '-' !in name
    ensures Strings.ReplaceAll(Strings.ReplaceAll(name, "/", "--"), "--", "/") == name
    decreases |name|
  {
    if |name| > 0 {
      assert name[..1] == [name[0]];
      var x := Strings.ReplaceAll(name[1..], "/", "--");
      SlashRoundTrip(name[1..]);
      if name[0] == '/' {
        assert Strings.ReplaceAll(name, "/", "--") == "--" + x;
        assert ("--" + x)[2..] == x;
      } else {
        assert Strings.ReplaceAll(name, "/", "--") == [name[0]] + x;
        assert ([name[0]] + x)[1..] == x;
      }
    }
  }

  /** A package name without dashes is recovered from its asset name. */
  lemma GetNameRoundTrip(name: string)
    requires '-' !in name
    ensures PackageName(GetName(name)) == name
  {
    SlashRoundTrip(name);
    assert GetName(name)[|Manifest.ComposerPrefix|..] == Strings.ReplaceAll(name, "/", "--");
  }

  /** Some link of the list requires this plugin. */
  predicate RequiresPlugin(links: seq<Link>) {
    exists i :: 0 <= i < |links| && links[i].target == PluginName
  }

  /** `hasPluginDependency`: scan the links and stop at the first one whose
      target is this plugin. */
  method HasPluginDependency(links: seq<Link>) returns (assets: bool)
    ensures assets <==> RequiresPlugin(links)
  {
    assets := false;
    var k := 0;
    while k < |links|
      invariant 0 <= k <= |links|
      invariant forall i :: 0 <= i < k ==> links[i].target != PluginName
    {
      if links[k].target == PluginName {
        assets := true;
        break;
      }
      k := k + 1;
    }
  }

  /** `getPath`: the resolved path of `<installPath>/<packageFile>`, with
      backslashes turned into slashes, when the package requires this plugin
      (in `require` or `require-dev`) and the file exists; `None` otherwise.
      The filesystem probe and `realpath` are parameters; a `realpath` that
      fails yields `false`, which `str_replace` reads as the empty string. */
  method GetPath(requires_: seq<Link>, devRequires: seq<Link>, installPath: string, packageFile: string,
                 fileExists: string -> bool, realpath: string -> Option<string>)
    returns (r: Option<string>)
    ensures r.Some? <==> (RequiresPlugin(requires_) || RequiresPlugin(devRequires))
                         && fileExists(installPath + "/" + packageFile)
    ensures r.Some? ==> '\\' !in r.value
    ensures r.Some? && realpath(installPath + "/" + packageFile).Some?
            && '\\' !in realpath(installPath + "/" + packageFile).value
            ==> r == realpath(installPath + "/" + packageFile)
    ensures r.Some? && realpath(installPath + "/" + packageFile).None? ==> r == Some("")
    ensures r.Some? && realpath(installPath + "/" + packageFile).Some?
            ==> r == Some(Strings.ReplaceAll(realpath(installPath + "/" + packageFile).value, "\\", "/"))
    ensures r.Some? ==> |r.value| == |realpath(installPath + "/" + packageFile).GetOr("")|
    ensures r.Some? ==> forall i :: 0 <= i < |r.value| ==>
              r.value[i] == if realpath(installPath + "/" + packageFile).GetOr("")[i] == '\\' then '/'
                            else realpath(installPath + "/" + packageFile).GetOr("")[i]
  {
    var isAsset := HasPluginDependency(requires_);
    if !isAsset {
      isAsset := HasPluginDependency(devRequires);
    }
    var filename := installPath + "/" + packageFile;
    if isAsset && fileExists(filename) {
      var resolved := realpath(filename).GetOr("");
      Strings.ReplaceCharRemovesIt(resolved, '\\', "/");
      Strings.ReplaceCharByChar(resolved, '\\', '/');
      if '\\' !in resolved {
        Strings.ContainsChar(resolved, '\\');
        Strings.ReplaceAllAbsent(resolved, "\\", "/");
      }
      r := Some(Strings.ReplaceAll(resolved, "\\", "/"));
    } else {
      r := None;
    }
  }
}
