/** The event through which listeners contribute asset packages before the
    asset manager runs: a map from asset-manifest name to the local path of
    the asset package. */
module AssetsEvent {
  import opened Wrappers
  import opened OrderedMap
  import opened PhpValue

  /** The name the event is dispatched under. */
  const GetAssets: string := "foxy.get-assets"

  /** The event: its name, the directory of the staged asset packages, the
      names of the installed Composer packages, and the asset map. */
  datatype Event = Event(name: string, assetDir: string, packages: seq<string>, assets: Entries<Value>)

  /** The constructor keeps the map it is given. */
  function NewEvent(assetDir: string, packages: seq<string>, assets: Entries<Value>): (e: Event)
    ensures e.name == GetAssets
    ensures GetAssetsOf(e) == assets
  {
    Event(GetAssets, assetDir, packages, assets)
  }

  /** `getAssets`. */
  function GetAssetsOf(e: Event): Entries<Value> {
    e.assets
  }

  /** `hasAsset`: the name is present with a non-null path. */
  predicate HasAsset(e: Event, name: string) {
    IsSet(e.assets, name)
  }

  /** `addAsset`: `$assets[$name] = $path`. */
  function AddAsset(e: Event, name: string, path: string): (r: Event)
    ensures HasAsset(r, name)
    ensures Get(r.assets, name) == Some(Str(path))
    ensures HasKey(e.assets, name) ==> Keys(r.assets) == Keys(e.assets)
    ensures !HasKey(e.assets, name) ==> r.assets == e.assets + [(name, Str(path))]
    ensures r.name == e.name && r.assetDir == e.assetDir && r.packages == e.packages
  {
    SetLookup(e.assets, name, Str(path), name);
    e.(assets := Set(e.assets, name, Str(path)))
  }

  /** Adding an asset leaves every other entry as it was. */
  lemma AddAssetOthers(e: Event, name: string, path: string, other: string)
    requires other != name
    ensures Get(AddAsset(e, name, path).assets, other) == Get(e.assets, other)
    ensures HasAsset(AddAsset(e, name, path), other) <==> HasAsset(e, other)
  {
    SetLookup(e.assets, name, Str(path), other);
  }

  /** Add a series of assets in order. */
  function AddAll(e: Event, adds: seq<(string, string)>): Event
    decreases |adds|
  {
    if |adds| == 0 then e else AddAll(AddAsset(e, adds[0].0, adds[0].1), adds[1..])
  }

  /** A name never added is present afterwards exactly when it was before:
      an event built from a map without it does not report it. */
  lemma {:induction false} NeverAdded(e: Event, adds: seq<(string, string)>, name: string)
    requires forall i :: 0 <= i < |adds| ==> adds[i].0 != name
    ensures HasAsset(AddAll(e, adds), name) <==> HasAsset(e, name)
    ensures Get(AddAll(e, adds).assets, name) == Get(e.assets, name)
    decreases |adds|
  {
    if |adds| > 0 {
      AddAssetOthers(e, adds[0].0, adds[0].1, name);
      NeverAdded(AddAsset(e, adds[0].0, adds[0].1), adds[1..], name);
    }
  }

  /** The last path added under a name is the one the map holds. */
  lemma {:induction false} LastAddWins(e: Event, adds: seq<(string, string)>, i: int)
    requires 0 <= i < |adds|
    requires forall j :: i < j < |adds| ==> adds[j].0 != adds[i].0
    ensures Get(AddAll(e, adds).assets, adds[i].0) == Some(Str(adds[i].1))
    ensures HasAsset(AddAll(e, adds), adds[i].0)
    decreases |adds|
  {
    if i == 0 {
      NeverAdded(AddAsset(e, adds[0].0, adds[0].1), adds[1..], adds[0].0);
    } else {
      LastAddWins(AddAsset(e, adds[0].0, adds[0].1), adds[1..], i - 1);
    }
  }
}
