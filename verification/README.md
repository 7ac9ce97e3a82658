# Foxy in Dafny

A model of the core of Foxy, the Composer plugin that merges the asset
dependencies of PHP packages into the project's `package.json` and runs npm,
Yarn or pnpm on it. The model covers:

- **The asset package** (`package.json`).
  - The merge keeps the `dependencies` entries prefixed `@composer-asset/` in
    step with the asset packages Composer installed.
  - The current revision sorts the dependency sections; the legacy revision
    captures and restores the original bytes.
  - The `license` and `private` keys are injected from the root package.
- **The asset fallback**: it saves the manifest bytes and restores them when
  the `fallback-asset` option is on.
- **The asset-manager protocol.**
  - Command lines built from `manager-bin`, `manager-options` and
    `manager-<action>-options`, for npm, Yarn and pnpm.
  - Availability, the update test, version validation and the merge.
  - `run`: gated by `run-asset-manager`, with the timeout switch and the
    fallback on failure.
- **Manager selection** by name, lock file or availability, and the
  invariant of a manager result.
- **The configuration.**
  - Environment keys and environment-value coercion.
  - Precedence: environment first, then configuration, then defaults.
  - `manager-*` per-manager values and the environment cache.
- **Version conversion** of npm-style versions to Composer syntax: tags,
  build metadata, `.x` wildcards, date versions, letter prefixes and en
  dashes.
- **The small helpers**: asset names and paths, the JSON indent and `[]`
  rewrites, the prefer-source/dist choice, the Composer version check, lock
  alias reshaping, and the asset map of the get-assets event.

PHP arrays are ordered sequences of `(key, value)` pairs (`OrderedMap`).
PHP values are a `Value` datatype with null, booleans, integers, strings and
arrays (`PhpValue`).

The file system is a map from paths to files and directories (`Files`).
Operations that touch it return the list of their effects; `Apply` carries
the effects out.

The process executor is a scripted queue of exit codes and outputs with a log
of the calls (`Process`).

Foreign behaviour is passed in as parameters:

- JSON decoding and encoding;
- Composer's semver constraint matching;
- `realpath` and `file_exists` in `getPath`;
- the array loader of the lock packages.

## Model

| member | source | states |
|---|---|---|
| Manifest.OwnedEntries | Asset/AssetPackage.php:86-99 | an entry is kept exactly when it was in the section and its name carries the `@composer-asset/` prefix |
| Manifest.OwnedLookup | Asset/AssetPackage.php:86-99 | looking a name up among the owned entries gives the section's value for an owned name and nothing for any other |
| Manifest.InstalledDependencies | Asset/AssetPackage.php:86-99 | the installed assets are exactly the owned entries of `dependencies`; an absent or non-array section yields none |
| Manifest.DirnameOfJoin | Asset/AssetPackage.php:109-115 | `dirname` of `d/f` is `d` for a file name `f`, the directory the `file:./` specifier points to |
| Manifest.DirnameOfName | Asset/AssetPackage.php:109-115 | `dirname` of a bare file name is `.` |
| Manifest.ExistingNames | Asset/AssetPackage.php:104-121 | the names reported as existing are exactly the input names already installed |
| Manifest.FreshLookup | Asset/AssetPackage.php:109-115 | every input name not installed is written as `file:./` plus the dirname of its path, and nothing else is written |
| Manifest.FreshKeys | Asset/AssetPackage.php:109-115 | only input names that are not installed are written |
| Manifest.FreshUnique | Asset/AssetPackage.php:109-115 | the writes name each key once when the input map does |
| Manifest.NothingFresh | Asset/AssetPackage.php:104-121 | when every input name is installed nothing is written and every name is reported |
| Manifest.SetAllLookup | Asset/AssetPackage.php:112 | assigning a batch of keys into a section: written keys take the new value, all others keep theirs |
| Manifest.SetAllUnique | Asset/AssetPackage.php:112 | assignment keeps the section's keys unique |
| Manifest.SetAllKeepsOrder | AssetPackage/AssetPackage.php:140-154 | assignment keeps the existing keys in place and appends new ones |
| Manifest.RemoveAllLookup | Asset/AssetPackage.php:126-136 | a removed name has no entry left, every other name keeps its value |
| Manifest.RemoveAllUnique | Asset/AssetPackage.php:126-136 | removal keeps the section's keys unique |
| Manifest.UnusedNames | Asset/AssetPackage.php:126-136 | the names to remove are exactly the installed names missing from the input |
| Manifest.RemoveUnusedLookup | Asset/AssetPackage.php:126-136 | after pruning, an owned name absent from the input is gone and every other entry of `dependencies`, such as `@bar/foo`, keeps its value |
| Manifest.RemoveUnusedOthers | Asset/AssetPackage.php:126-136 | pruning touches no top-level key but `dependencies` and keeps the key order |
| Manifest.RemoveUnusedUnique | Asset/AssetPackage.php:126-136 | pruning keeps `dependencies` free of duplicate keys |
| Manifest.WritableSection | Asset/AssetPackage.php:112 | writing into `dependencies` starts from the array there; from nothing when it is missing, null or false; a string fails with PHP's string-offset error, and `true` or a number with "Cannot use a scalar value as an array" |
| Manifest.AddUnsorted | AssetPackage/AssetPackage.php:140-154 | adding reports the already installed input names and fails only when there is something to write |
| Manifest.AddUnsortedLookup | AssetPackage/AssetPackage.php:140-154 | after adding, each input name that was not installed maps to its local specifier; every other entry keeps its value |
| Manifest.AddUnsortedFailure | AssetPackage/AssetPackage.php:140-154 | adding fails exactly when something is to be written into a `dependencies` that holds a scalar |
| Manifest.AddUnsortedOthers | AssetPackage/AssetPackage.php:140-154 | adding touches no top-level key but `dependencies` |
| Manifest.AddUnsortedAppends | AssetPackage/AssetPackage.php:140-154 | the legacy merge does not reorder: existing entries keep their places and new names follow them |
| Manifest.AddUnsortedUnique | AssetPackage/AssetPackage.php:140-154 | adding keeps `dependencies` free of duplicate keys |
| AssetPackage.Open | Asset/AssetPackage.php:44-53 | every key but `license` and `private` reads as in the file (and is absent without a file); a file with its own license is taken unchanged; no file and no root license give `[]`; a missing license becomes the first root license, or, for `proprietary`, the document is marked private and gets no license |
| AssetPackage.OrderSection | Asset/AssetPackage.php:163-168 | ordering a section keeps the document's top-level keys |
| AssetPackage.OrderSectionEffect | Asset/AssetPackage.php:163-168 | an ordered section is strictly ascending by name, with the same lookups, and other keys are untouched |
| AssetPackage.OrderSectionSorted | Asset/AssetPackage.php:163-168 | ordering an ordered section changes nothing |
| AssetPackage.AddNewDependencies | Asset/AssetPackage.php:104-121 | adding succeeds when the unsorted merge does and reports, in input order, the input names already installed |
| AssetPackage.AddNewDependenciesEffect | Asset/AssetPackage.php:104-121 | after adding, `dependencies` and `devDependencies` are strictly ascending by name; new names map to their local specifier, everything else keeps its value, and other keys are untouched |
| AssetPackage.ExistingKeepValues | Asset/AssetPackage.php:104-121 | a name is reported as existing exactly when it was an installed input name, and its value is left as it was |
| AssetPackage.SyncInstalls | Asset/AssetPackage.php:104-136 | after pruning then adding, the owned entries are exactly the input names |
| AssetPackage.SyncIdempotent | Asset/AssetPackage.php:104-136 | a second prune-and-add with the same input leaves the package unchanged and reports every input name as existing |
| AssetPackage.SyncSorted | Asset/AssetPackage.php:104-136 | after one pass both dependency sections are in order |
| AssetPackage.SecondPruneNothing | Asset/AssetPackage.php:126-136 | the pruning of a second pass removes nothing |
| AssetPackage.SecondAddNothing | Asset/AssetPackage.php:104-121 | the adding of a second pass writes nothing and reports every input name |
| AssetPackage.InjectEffect | Asset/AssetPackage.php:143-156 | an existing license is kept; a first root license `proprietary` never writes `license` and leaves `private` as it was when set, `true` otherwise; any other first license becomes `license` and leaves `private` as it was; other keys are untouched |
| AssetPackage.InjectIdempotent | Asset/AssetPackage.php:143-156 | injecting twice is injecting once |
| LegacyAssetPackage.Open | AssetPackage/AssetPackage.php:55-66 | the original bytes are captured exactly when the file exists; decoding can fail only then; a missing file gives an empty package with the required keys |
| LegacyAssetPackage.Write | AssetPackage/AssetPackage.php:71-76 | the file holds the encoding of exactly the current package and nothing else changes |
| LegacyAssetPackage.Restore | AssetPackage/AssetPackage.php:81-91 | restore leaves the captured bytes at the path, or no file when none was captured, and touches nothing outside the path |
| LegacyAssetPackage.RestoreEffectsApply | AssetPackage/AssetPackage.php:81-91 | restore removes the path once, and carrying out its effects gives the restored tree |
| LegacyAssetPackage.OpenWriteRestore | AssetPackage/AssetPackage.php:55-91 | open, write, restore puts back the original file, or leaves no file when there was none |
| LegacyAssetPackage.InjectEffect | AssetPackage/AssetPackage.php:176-187 | an existing license is kept; otherwise a first root license `proprietary` marks the package private when `private` is unset, and in every other case the first license is written to `license` and `private` is left as it was; other keys are untouched |
| LegacyAssetPackage.InjectRevisionsDiffer | AssetPackage/AssetPackage.php:178-186 | with `private` already set and a `proprietary` root license, the legacy revision writes the license and the current one does not |
| AssetFallback.New | Fallback/AssetFallback.php:50-56 | a fresh fallback watches the path and has saved nothing |
| AssetFallback.Save | Fallback/AssetFallback.php:61-68 | the content is recorded only for a regular file; otherwise an earlier recording is kept |
| AssetFallback.Restore | Fallback/AssetFallback.php:73-85 | restore fails exactly when reading the option fails; when the option is off it does nothing; when on it prints one message and removes the path once |
| AssetFallback.RestoreEffect | Fallback/AssetFallback.php:79-84 | an enabled restore leaves the saved bytes at the path, or no file, and keeps every other path |
| AssetFallback.RestoreIdempotent | Fallback/AssetFallback.php:73-85 | restoring twice leaves the tree as restoring once |
| AssetFallback.SaveThenRestore | Fallback/AssetFallback.php:61-85 | whatever happens between save and restore, the saved file comes back |
| AssetFallback.SaveAbsentThenRestore | Fallback/AssetFallback.php:61-85 | after saving an absent file, an enabled restore leaves no file |
| Files.RemoveTree | Fallback/AssetFallback.php:80 | removing a path removes it and all it holds, and nothing else |
| Process.Execute | Tests/Fixtures/Util/ProcessExecutorMock.php:41-52 | each call is logged with its command, the timeout in force and its answer, and consumes one scripted answer |
| AssetManager.OptionText | Asset/AbstractAssetManager.php:248-250 | an option group adds nothing when empty in PHP's sense (`""` or `"0"`), and a space then the group otherwise |
| AssetManager.PlatformBin | Asset/AbstractAssetManager.php:243-244 | the binary keeps its length and every character, except that on Windows each `/` becomes `\`; so no `/` is left there, and elsewhere it is unchanged |
| AssetManager.BuildCommand | Asset/AbstractAssetManager.php:241-251 | a failing `manager-bin` read fails the command; a built command has read both option keys; an array binary with both options readable raises the "Array to string conversion" warning at the concatenation, after the options were read |
| AssetManager.CommandLine | Asset/AbstractAssetManager.php:248-250 | the line starts with binary, space, command; without options it is just that; an action option group ends it |
| AssetManager.BuildCommandDefault | Asset/AbstractAssetManager.php:241-251 | with nothing configured the command is the default binary, a space and the command |
| AssetManager.BuildCommandParts | Asset/AbstractAssetManager.php:241-251 | with the three keys read as strings, the command is the platform binary, a space, the command, then the trimmed `manager-options` and the trimmed `manager-<action>-options`, each after a space and only when not empty in PHP's sense |
| AssetManager.DefaultVersionCommand | Asset/NpmManager.php:40-43 | each manager's version command is its binary with `--version` |
| AssetManager.NpmCommandsRaise | Asset/NpmManager.php:48-69 | npm's install and update getters raise on reading the undeclared `isDevMode`, whatever the configuration, so neither command is ever built |
| AssetManager.IntendedNpmDefault | Tests/Asset/NpmAssetManagerTest.php:92-112 | the intended install line is `npm install --prod` outside dev mode and `npm install` in it; the intended update line is `npm update --dev` in dev mode and `npm update` outside it |
| AssetManager.NpmIntentMissed | Asset/NpmManager.php:48-69 | where the tests expect `npm install --prod` or `npm update --dev` (nothing configured), the written getters raise instead |
| AssetManager.DefaultYarnInstall | Asset/YarnManager.php:66-69 | Yarn installs with `yarn install --non-interactive` |
| AssetManager.DefaultYarnUpdate | Asset/YarnManager.php:74-77 | Yarn updates with `yarn upgrade --non-interactive` |
| AssetManager.DefaultPnpmInstall | Asset/PnpmManager.php:56-59 | pnpm installs with `pnpm install` |
| AssetManager.DefaultPnpmUpdate | Asset/PnpmManager.php:64-67 | pnpm updates with `pnpm update` |
| AssetManager.IsAvailable | Asset/AbstractAssetManager.php:91-96 | availability runs the version command once and holds exactly when its trimmed output is not empty |
| AssetManager.SilentNotAvailable | Asset/AbstractAssetManager.php:91-96 | a manager whose executor prints nothing is unavailable |
| AssetManager.DefaultYarnCheck | Asset/YarnManager.php:50 | with nothing configured, Yarn's update check is `yarn check --non-interactive` |
| AssetManager.IsValidForUpdate | Asset/YarnManager.php:48-53 | npm and pnpm are always valid without running anything; Yarn fails exactly when its check command cannot be built, otherwise runs that command once (appended to the log) and is valid exactly on exit code 0 |
| AssetManager.IsUpdatable | Asset/AbstractAssetManager.php:145-148 | without the switch or an installed tree the answer is no and nothing runs; otherwise it is the update test |
| AssetManager.UpdatableMeans | Asset/AbstractAssetManager.php:117-156 | updatable holds exactly when switched on, installed and valid for update; only Yarn runs a command for it |
| AssetManager.Validate | Asset/AbstractAssetManager.php:161-179 | a version command that cannot be built is the error; a passing validation has run exactly that version command, once, appended to the log |
| AssetManager.ValidateOutcome | Asset/AbstractAssetManager.php:161-179 | a blank version fails with "binary must be installed"; an unset constraint accepts; a set one accepts exactly the matching versions, fails the others with the mismatch message, and passes on the error of a constraint that does not parse |
| AssetManager.ValidateSilent | Asset/AbstractAssetManager.php:166-170 | an executor that prints nothing fails validation with "binary must be installed" |
| AssetManager.AlreadyInstalledEffects | Asset/NpmManager.php:74-79 | only npm acts on already installed names, and silently |
| AssetManager.Folders | Asset/NpmManager.php:74-79 | each name's folder is `./node_modules/<name>` |
| AssetManager.AlreadyInstalledRemoves | Asset/NpmManager.php:74-79 | npm removes a path exactly as often as it is the folder of a reported name, and nothing else |
| AssetManager.FoldersCons | Asset/NpmManager.php:76-78 | the folders follow the names in order |
| AssetManager.AddDependencies | Asset/AbstractAssetManager.php:184-194 | a merge reads a decodable `package.json` when there is one, prints the merge message once and ends by writing the encoded package |
| AssetManager.AddDependenciesWrites | Asset/AbstractAssetManager.php:184-194 | after the merge `package.json` holds the encoded merged package |
| AssetManager.Execution | Asset/AbstractAssetManager.php:211-219 | the command runs once under the switched timeout, the previous timeout is put back, the exit code is returned, and the fallback is restored exactly on a positive code with a fallback set; without a restore the effects are the announcement alone, with one they are the announcement then the restore's effects, or the restore's error is the result |
| AssetManager.RunAsWrittenLeaksTimeout | Asset/AbstractAssetManager.php:209-213 | as written, a failing command build after the switch leaves the executor on `manager-timeout`: pnpm with an invalid JSON `manager-bin` raises and keeps 60 instead of 300 |
| AssetManager.NpmRunAsWrittenLeaks | Asset/AbstractAssetManager.php:198-213 | every enabled npm run that reaches the command raises the undefined-property error; as written it leaves `manager-timeout` in force, while the corrected `run` restores the previous timeout |
| AssetManager.Run | Asset/AbstractAssetManager.php:199-220 | the timeout in force before `run` is in force after it, on every path; a disabled run returns 0 and does nothing |
| AssetManager.RunAgreesWhenBuilt | Asset/AbstractAssetManager.php:199-220 | whenever the command can be built, the corrected `run` behaves as the written one |
| AssetManager.RunExecutes | Asset/AbstractAssetManager.php:205-219 | `run` executes the update command exactly when updatable, else the install command; it runs under `manager-timeout`, returns the exit code, announces itself, and restores the fallback exactly on a positive code with a fallback set; the announcement is followed by the restore's effects when it restored and by nothing otherwise |
| AssetManager.RunDisabledDoesNothing | Asset/AbstractAssetManager.php:199-203 | unless `run-asset-manager` is `true`, `run` returns 0, runs nothing and changes no file |
| ManagerFinder.AddManager | Asset/AssetManagerFinder.php:42-45 | a manager registered under a name replaces any earlier one of that name and leaves the others |
| ManagerFinder.RegisterLookup | Asset/AssetManagerFinder.php:33-40 | after the constructor each name maps to the last manager given with it; inputs that are not managers are skipped |
| ManagerFinder.RegisterSplit | Asset/AssetManagerFinder.php:33-45 | registering a list then one more input is registering them all |
| ManagerFinder.FindAvailableManager | Asset/AssetManagerFinder.php:77-94 | the first manager with a lock file, found without probing; else the managers are probed in order and the first that answers available is chosen after that many probes; a probe that raises (the configuration error of `isAvailable`) ends the search with that error; when every probe answers no, the search fails with "No asset manager is found" after probing them all; a finder with no manager, whose `$managers` is still null, fails with the `foreach` warning on null without probing |
| ManagerFinder.FindManager | Asset/AssetManagerFinder.php:57-68 | a registered name gives its manager; an unregistered name fails with the "doesn't exist" error; both without probing; with no name, the first manager with a lock file without probing, else the first available one after that many probes, else the error of the first probe that raises, else "No asset manager is found" after probing them all; with no name and no manager, the `foreach` warning on null |
| ManagerResult.New | Asset/AssetManagerResult.php:12-49 | construction fails with code 1591974481 exactly for a positive exit code without a reason; otherwise the getters return the arguments and the invariant holds |
| ManagerResult.NonPositiveNeedsNoReason | Asset/AssetManagerResult.php:14-20 | an exit code of zero or less needs no reason |
| Configuration.EnvKey | Config/Config.php:100-103 | the key is `FOXY__` followed by the upper-cased key with `-` turned into `_` |
| Configuration.UnquoteKeeps | Config/Config.php:115 | a value without quotes or blanks at its ends is left as it is |
| Configuration.BooleanWordShape | Config/Config.php:135-140 | the boolean words are `1`, `0` or start with a lower-case letter |
| Configuration.NotBooleanWhenPunctuation | Config/Config.php:135-140 | a value starting with neither a letter nor a digit is not boolean |
| Configuration.IntStringShape | Config/Config.php:161-164 | a printed integer is digits, with one leading `-` when negative |
| Configuration.SmallIntIsBoolean | Config/Config.php:117-121 | `0` and `1` are boolean words |
| Configuration.NegativeIntNotBoolean | Config/Config.php:135-140 | a printed negative integer is not boolean |
| Configuration.LargeIntNotBoolean | Config/Config.php:135-140 | a printed integer above 1 is not boolean |
| Configuration.IntegerValue | Config/Config.php:117-121 | an integer string that is not boolean converts to its `(int)` cast |
| Configuration.BooleanValue | Config/Config.php:117-152 | a boolean word converts to true exactly when it is `true`, `1`, `yes` or `y` |
| Configuration.PrintedIntegerValue | Config/Config.php:113-126 | every printed PHP integer other than 0 and 1 reads back as itself |
| Configuration.EnvIntegerRoundTrip | Config/Config.php:113-176 | a printed integer reads back as itself, except that 0 and 1 become false and true |
| Configuration.LowerTrue | Config/Config.php:149-152 | `true` converts to true |
| Configuration.UpperTrue | Config/Config.php:149-152 | `TRUE` is boolean but converts to false |
| Configuration.QuotedYes | Config/Config.php:115 | `'yes'` is unquoted first and converts to true |
| Configuration.BooleanCase | Config/Config.php:135-152 | boolean recognition ignores case, conversion does not |
| Configuration.JsonValue | Config/Config.php:185-207 | a value starting with `{` or `[` is decoded, and invalid JSON fails with the "isn't a valid JSON" error |
| Configuration.Precedence | Config/Config.php:73-91 | environment before configuration before defaults; a non-null explicit default overrides the defaults table |
| Configuration.ManagerDefault | Config/Config.php:217-224 | the default side of a `manager-*` key is the explicit default, or for a null default the defaults table's value, narrowed to the current manager's entry when it is a per-manager map |
| Configuration.ManagerSelection | Config/Config.php:217-246 | a configured `manager-*` array yields the entry of the current manager; without one, a plain non-null default, or for a null default the defaults table's value (the current manager's entry of it when it is a map) |
| Configuration.Get | Config/Config.php:73-91 | a lookup never drops or changes a cached value |
| Configuration.GetDefaultValue | Config/Config.php:217-224 | reading a default never drops or changes a cached value |
| Configuration.GetByManager | Config/Config.php:235-246 | per-manager selection never drops or changes a cached value |
| Configuration.GetAgrees | Config/Config.php:73-91 | the cached lookup answers as the uncached precedence rule and keeps the cache faithful |
| Configuration.DefaultAgrees | Config/Config.php:217-224 | the cached default read answers as the uncached one |
| Configuration.ByManagerAgrees | Config/Config.php:235-246 | the cached per-manager read answers as the uncached one |
| Configuration.EnvValueSticks | Config/Config.php:75-84 | once a value has been read from the environment or cached, later lookups return it whatever the environment or default |
| Configuration.GetArray | Config/Config.php:58-63 | `getArray` reads the key with a null default and fails when that read fails; a value found is cast with `(array)`: an array is returned as it is and a scalar becomes the one-entry list `["0" => value]`; null gives the given default |
| SemverUtil.NumberEnd | Converter/SemverUtil.php:79 | a version number is a run of digits, an `x` or a `*` |
| SemverUtil.VersionPrefix | Converter/SemverUtil.php:77-84 | a matched prefix is a non-empty run of number characters and dots at the head of the version, and a tag follows it |
| SemverUtil.VersionPrefixExact | Converter/SemverUtil.php:77-84 | a prefix of the version is one, two or three numbers (digits, `x` or `*`) joined by single dots with a tag after it exactly when it is the prefix found; so no match means no such prefix exists, and at most one ever does |
| SemverUtil.DigitsAndDotsUntagged | Converter/SemverUtil.php:49-54 | a text of digits and dots has no tag to convert |
| SemverUtil.NormalizeStability | Converter/SemverUtil.php:122 | normalising keeps the length and gives `RC` exactly for `rc` in any case |
| SemverUtil.CleanVersion | Converter/SemverUtil.php:110-126 | the stem is the prefix and a dash, and the type and the rest come from the text after the prefix |
| SemverUtil.Tag | Converter/SemverUtil.php:136-170 | `dev` and `snapshot` become `dev` with no number; `alpha`, `beta`, `RC` are kept; every tag but `dev` takes a number |
| SemverUtil.MatchVersion | Converter/SemverUtil.php:136-170 | the stem gets the mapped tag and the number flag |
| SemverUtil.PatchNumberFrom | Converter/SemverUtil.php:59 | a patch number is found exactly when a digit follows |
| SemverUtil.PatchNumber | Converter/SemverUtil.php:59-60 | there is a patch number exactly when the rest holds a digit |
| SemverUtil.PatchNumberOfDigits | Converter/SemverUtil.php:59-60 | a run of digits is its own patch number |
| SemverUtil.CleanWildcard | Converter/SemverUtil.php:93-100 | no `.x.x` is left, and text without one is unchanged |
| SemverUtil.ConvertVersionMetadata | Converter/SemverUtil.php:47-68 | no `.x.x` is left, and an untagged version only has its wildcards cleaned |
| SemverUtil.PlainVersionUnchanged | Converter/SemverUtil.php:47-68 | a plain number of digits and dots passes through unchanged |
| SemverUtil.ReleasePrefix | Converter/SemverUtil.php:77-84 | the prefix of a release followed by a tag is the release |
| SemverUtil.CleanTagged | Converter/SemverUtil.php:110-126 | after a number, an optional sign and a word, the type is the normalised word and the rest is the number |
| SemverUtil.MetadataOfTagged | Converter/SemverUtil.php:55-67 | a tagged version becomes stem, tag and, unless `dev`, the patch number or 1 |
| SemverUtil.TaggedRelease | Converter/SemverUtil.php:47-68 | `a.b.c`, an optional `-` or `+`, a tag word and a number become `a.b.c-` plus the mapped tag plus, unless `dev`, the number or 1 |
| SemverUtil.ZeroPadValue | Converter/SemverUtil.php:185 | zero-padding keeps a number's value |
| SemverUtil.Pad3Width | Converter/SemverUtil.php:185 | `%03d` prints every number below 1000 on exactly three digits |
| SemverUtil.Pad3ReadsBack | Converter/SemverUtil.php:182-185 | the `(int)` cast reads back every padded integer |
| SemverUtil.ConvertDateVersion | Converter/SemverUtil.php:30-38 | a version not starting with seven digits and a dot is unchanged |
| SemverUtil.DateSplit | Converter/SemverUtil.php:32-34 | a date version keeps its date and has its minor part converted |
| SemverUtil.MinorOnly | Converter/SemverUtil.php:179-186 | a minor part without a dot becomes the padded minor, read by PHP's `(int)` cast, and `000` |
| SemverUtil.MinorAndRevision | Converter/SemverUtil.php:179-186 | `x.y` becomes the padded minor and the padded revision, each read by PHP's `(int)` cast, fractions and exponents included |
| SemverUtil.MinorExponentRevision | Converter/SemverUtil.php:181-185 | a revision written `+1e5` is read as 100000: `1.+1e5` becomes `.001100000` |
| Strings.IntCastFraction | Converter/SemverUtil.php:182-183 | the `(int)` cast reads a decimal fraction and truncates it away: digits, a dot and digits give the cast of the whole digits |
| Strings.IntCastExponent | Converter/SemverUtil.php:182-183 | the `(int)` cast reads digits with an exponent as the digits times that power of ten, saturated at the 64-bit bounds, and 0 past the range of a double |
| Strings.IntCastNegativeExponent | Converter/SemverUtil.php:182-183 | a negative exponent divides by that power of ten and the cast truncates toward zero: `25e-1` is read as 2 |
| Strings.IntCastPlusExponent | Converter/SemverUtil.php:182-183 | a leading `+` is read: `(int)"+1e5"` is 100000 |
| SemverConverter.LetterPrefix | src/Converter/SemverConverter.php:28 | a lower-case first letter is set aside unless the version starts with `dev-` |
| SemverConverter.ConvertVersion | src/Converter/SemverConverter.php:21-34 | null and the empty string give `*`; `latest` gives `default \|\| *` |
| SemverConverter.LetterKept | src/Converter/SemverConverter.php:28-33 | a leading lower-case letter is kept in front of the conversion of the rest |
| SemverConverter.EnDashIsHyphen | src/Converter/SemverConverter.php:27 | an en dash converts as a hyphen |
| SemverConverter.DashesReplaced | src/Converter/SemverConverter.php:27-31 | replacing the en dashes first changes no conversion |
| AssetUtil.GetName | Util/AssetUtil.php:33-36 | the asset name is `@composer-asset/` followed by the package name with no `/` left |
| AssetUtil.GetNameRoundTrip | Util/AssetUtil.php:33-36 | a package name without dashes is recovered from its asset name |
| AssetUtil.HasPluginDependency | Util/AssetUtil.php:63-75 | true exactly when some link targets `foxy/foxy` |
| AssetUtil.GetPath | Util/AssetUtil.php:47-54 | a path is given exactly when the package requires the plugin and the file exists; it is `realpath`'s answer with every `\` turned into `/` and every other character kept, so it has no backslash; a failing `realpath` gives the empty string |
| JsonFormat.IndentMatchUnique | Json/JsonFormatter.php:34 | the indent pattern matches with one group length at most |
| JsonFormat.GetIndent | Json/JsonFormatter.php:32-42 | the indent is the length of the space run when the trimmed content matches the pattern, and 4 when it does not |
| JsonFormat.IndentOfFirstMember | Json/JsonFormatter.php:32-42 | an object whose first member line is indented by `n` spaces reports `n` |
| JsonFormat.Reindent | Json/JsonFormatter.php:59-61 | with indent 4 nothing is rewritten |
| JsonFormat.ReindentLeading | Json/JsonFormatter.php:59-61 | `k` levels of four spaces become `k` levels of `indent` spaces |
| JsonFormat.ReindentNoLevel | Json/JsonFormatter.php:59-61 | text without four spaces in a row is unchanged |
| JsonFormat.EmptyArraysAsObjects | Json/JsonFormatter.php:63 | the rewrite keeps the length |
| JsonFormat.EmptyArraysPointwise | Json/JsonFormatter.php:63 | each occurrence of `:`, one blank and `[]` reads `: {}` and every other character is kept |
| JsonFormat.EmptyArraysGone | Json/JsonFormatter.php:63 | no `:`, blank, `[]` is left |
| JsonFormat.EmptyArraysNone | Json/JsonFormatter.php:63 | text without one is unchanged |
| JsonFormat.EmptyArraysIdempotent | Json/JsonFormatter.php:63 | rewriting twice is rewriting once |
| JsonFormat.Format | Json/JsonFormatter.php:53-64 | formatted text holds no empty array after a key, and with indent 4 only that rewrite happens |
| ConsoleUtil.PreferredInstallOptions | Util/ConsoleUtil.php:58-83 | an input flag overrides the configuration; without flags at most one answer is true, and only a string or boolean setting gives one |
| ConsoleUtil.PreferredFromConfig | Util/ConsoleUtil.php:60-75 | `source` gives (true, false), `dist` gives (false, true), anything else (false, false) |
| ConsoleUtil.PreferredNonText | Util/ConsoleUtil.php:63-75 | a non-string setting prefers source only when it is `true`, as PHP's loose `==` compares it with `source` |
| ConsoleUtil.PreferDistOverridesAuto | Util/ConsoleUtil.php:77-80 | `--prefer-dist` wins over an `auto` setting |
| ComposerUtil.MessageNamesBoth | Util/ComposerUtil.php:48-50 | the failure message names the required and the current version |
| ComposerUtil.ValidateVersion | Util/ComposerUtil.php:42-52 | the check fails exactly when the version has no `@`, is no commit hash, and does not satisfy the requirement, and then with that message |
| ComposerUtil.SnapshotAccepted | Util/ComposerUtil.php:45-47 | a 40-hex-digit version is always accepted |
| ComposerUtil.BranchAccepted | Util/ComposerUtil.php:44-47 | a version with `@` is always accepted |
| PackageUtil.LoadLockPackage | Util/PackageUtil.php:50-62 | the keys of the lock data are kept, and data without the section comes back unchanged; it fails exactly when the section is set but not an array, with the `foreach` warning naming the section's type |
| PackageUtil.LoadLockPackageLookup | Util/PackageUtil.php:50-62 | each package of a set section is replaced by what the loader makes of it; every other key keeps its value |
| PhpValue.Offset | Util/PackageUtil.php:77-80 | reading `$v[$k]` succeeds exactly on an array holding the key, with its value; a missing key raises "Undefined array key", a string rejects the offset, and null, a boolean or a number raise "Trying to access array offset on value of type" with the type |
| PhpValue.Foreach | Util/PackageUtil.php:55 | `foreach` walks exactly the arrays, over their entries; any other value raises the `foreach` warning naming its type |
| PackageUtil.Field | Util/PackageUtil.php:77-80 | a field of an alias row reads exactly when the row is an array holding it; otherwise the undefined-key warning, the string-offset error, or the offset-on-scalar warning |
| PackageUtil.ReadRow | Util/PackageUtil.php:77-80 | a row's four fields are read exactly when the row is an array holding all four, and they are its values |
| PackageUtil.RowKeyMissingField | Util/PackageUtil.php:78 | a row with only `package` and `version` raises the undefined-key warning for `alias` |
| PackageUtil.RowKeyScalarRows | Util/PackageUtil.php:77 | the rows 5 and null raise the offset-on-scalar warning for `int` and `null`; a string row the string-offset error |
| PackageUtil.RowKey | Util/PackageUtil.php:77-80 | a row can be filed exactly when it is an array holding all four fields and its package and version are not arrays; it is filed under those two as array keys; a row missing a field fails with the error of that read |
| PackageUtil.AddAlias | Util/PackageUtil.php:77-80 | one row is stored exactly when it can be filed |
| PackageUtil.AddAliasLookup | Util/PackageUtil.php:77-80 | the row's cell gets its alias record and every other cell keeps its value |
| PackageUtil.AddAliasesStep | Util/PackageUtil.php:76-81 | the rows are stored one after the other |
| PackageUtil.AddAliasesEachRow | Util/PackageUtil.php:76-81 | a conversion that succeeds could read every row |
| PackageUtil.AddAliasesAllRows | Util/PackageUtil.php:76-81 | a conversion whose rows can all be filed succeeds |
| PackageUtil.AddAliasesUntouched | Util/PackageUtil.php:76-81 | a cell no row names keeps its value |
| PackageUtil.AddAliasesLastWins | Util/PackageUtil.php:76-81 | a cell holds the record of the last row that names it |
| PackageUtil.TableValue | Util/PackageUtil.php:83 | the table becomes an array value with the same keys |
| PackageUtil.TableValueLookup | Util/PackageUtil.php:83 | each package of the table becomes an array of its versions |
| PackageUtil.ConvertLockAlias | Util/PackageUtil.php:71-87 | lock data without `aliases` comes back unchanged; a set `aliases` that is not an array raises the `foreach` warning; an array succeeds exactly when all its rows are filed; a conversion keeps the keys |
| PackageUtil.ConvertLockAliasOthers | Util/PackageUtil.php:71-87 | no key but `aliases` changes |
| PackageUtil.ConvertedCell | Util/PackageUtil.php:76-83 | `aliases[package][version]` of the result is the cell the rows built |
| PackageUtil.ConvertLockAliasLastWins | Util/PackageUtil.php:76-83 | `aliases[package][version]` holds the alias record of the last row naming that package and version |
| PackageUtil.ConvertLockAliasNoRow | Util/PackageUtil.php:76-83 | a package and version that no row names has no cell |
| PackageUtil.LoadLockPackages | Util/PackageUtil.php:31-39 | loading keeps the keys of the lock data; a set `packages` that is not an array raises the `foreach` warning |
| PackageUtil.LoadLockPackagesNothingSet | Util/PackageUtil.php:31-39 | lock data with none of the three sections comes back unchanged |
| PackageUtil.LoadLockPackagesEmpty | Util/PackageUtil.php:31-39 | empty lock data comes back empty |
| PackageUtil.LoadLockPackagesStringPackages | Util/PackageUtil.php:53-55 | a string `packages` raises the `foreach` warning for `string` |
| PackageUtil.LoadLockPackagesFalseDev | Util/PackageUtil.php:53-55 | a `false` `packages-dev` raises the `foreach` warning for `bool` |
| PackageUtil.LoadLockPackagesNumberAliases | Util/PackageUtil.php:74-76 | a number for `aliases` raises the `foreach` warning for `int` |
| AssetsEvent.NewEvent | src/Event/GetAssetsEvent.php:36-41 | right after construction the assets are the given map |
| AssetsEvent.AddAsset | src/Event/GetAssetsEvent.php:71-76 | after adding, the name is present and maps to the path; an existing name keeps its place and a new one is appended; nothing else of the event changes |
| AssetsEvent.AddAssetOthers | src/Event/GetAssetsEvent.php:71-76 | other names keep their entries and presence |
| AssetsEvent.NeverAdded | src/Event/GetAssetsEvent.php:50-53 | a name never added is present only if it was at construction |
| AssetsEvent.LastAddWins | src/Event/GetAssetsEvent.php:71-76 | after a run of additions a name maps to the path it was last given |

## Left out

- The Composer pretty printer that `JsonFormatter::format` calls when `formatJson` is true: it is Composer code. Only the two string rewrites are modelled.
- `Json/JsonFile.php`: a wrapper over Composer's JSON file reading and writing. Reading and encoding are parameters here.
- `ConsoleUtil::getInput`: reflection into a private field of the IO object.
- `Solver/*`, the Composer fallback classes, `Foxy.php`, `Config/ConfigBuilder.php` and `Util/LockerUtil.php`: Composer plumbing, event wiring and config-file loading. `ComposerUtil::getInitEventName` is left out for the same reason.
- `AssetManager/*`: an older revision of the managers, superseded by `Asset/*`.
- Semver constraint parsing and matching: a parameter of `Validate` and `ValidateVersion`, given no meaning. In `Validate` it may fail, standing for the exception of a constraint that does not parse.
- `json_decode`: a parameter of the configuration and of the asset package.
- The package array loader: a parameter of `LoadLockPackage`. Loading cannot fail in the model, and an alias package's `getAliasOf` is folded into that parameter. Composer's `ArrayLoader` rejects a package that is not an array, or lacks a name or version; that loader is not part of this model.
- `realpath` and `file_exists` in `getPath`: parameters.
- The installation manager in `getPath` is left out: the install path is given directly.
- `VersionParser::normalizeStability` is defined explicitly: lower case, with `rc` spelled `RC`.
- Floating-point values are not part of `Value`, so JSON that decodes to floats is outside the model.
- PHP's loose comparison follows the PHP 8 rules; `preferred-install` as the integer 0 would compare differently under PHP 7.
- Real process execution: a scripted executor that logs each call with the timeout in force. `ProcessExecutor`'s global timeout lives in the executor record.
- Package objects in lock data and the event's package list: modelled as values and names, since only their keys and order matter here.
- Console output: only messages are recorded as effects, and their text is not compared beyond the fixed messages.
- PHP warnings and notices are modelled as Composer's error handler treats them: it raises them as `ErrorException`, and it only reports deprecations. So an array in a concatenation, npm's read of the undeclared `isDevMode`, a missing key or a scalar read as an array in the alias rows, and a `foreach` over a scalar section of the lock data or over the null `$managers` of an empty finder all raise, while a null passed to `trim` does not. Outside Composer, with no such handler, both would only warn, and npm would build its lines without the extra options.
- Strings.IntCast: the numeric prefix is read exactly and then truncated. PHP first rounds it to a double, so the two differ when that rounding crosses an integer: above 2^53, or with about 16 or more significant digits in a fraction (`0.99999999999999999` casts to 1 in PHP and to 0 here).
- SemverUtil.DateSplit: the whole-date conversion is stated piecewise, by `DateSplit`, `MinorOnly` and `MinorAndRevision`, rather than as one end-to-end equation.
- AssetUtil.GetNameRoundTrip: the round trip holds only for names without a dash. A name with `--` cannot be told apart from one with `/`, so `getName` is not injective in general.
- SemverConverter.LetterKept: stated for a rest that does not start with a lower-case letter (or starts with `dev-`), the case the prefix rule covers.
- ConsoleUtil.PreferredInstallOptions: a setting other than a string or a boolean, such as an integer, prefers neither source nor dist in the model. PHP's loose comparison of an integer with a word is not modelled beyond that.
- Functions that tests call but the sources do not define, such as `getArrayKeys`, `isProjectActivation` and the Yarn 2 `yarn up` command: there is no code to model.
- Interfaces, event-name constants, the solve-event getters, exception classes and test fixtures.

## Findings

| source | as written | input that shows it | evidently intended | confidence | as-written member | corrected member |
|---|---|---|---|---|---|---|
| Asset/AbstractAssetManager.php:209-213 | `run` sets the global timeout to `manager-timeout`, then builds the command. Building can throw, for example on an invalid JSON environment value for `manager-bin`. The old timeout is then never put back. | pnpm, `run-asset-manager` true, `manager-timeout` 60, previous timeout 300, `FOXY__MANAGER_BIN` not valid JSON: the run raises and the timeout stays 60 | the previous timeout is restored on every path that changed it (a `finally`) | not executed | AssetManager.RunAsWrittenLeaksTimeout | AssetManager.Run |
| Asset/NpmManager.php:48-69 | `getInstallCommand` and `getUpdateCommand` read `$this->isDevMode`, which no class declares; under Composer's error handler the undefined-property warning raises, so npm never builds a command. Were it declared, the extra options (`--prod` outside dev mode, `--dev` in it) would still be lost: they go to `buildCommand` as a fourth argument, and it takes three | npm with nothing configured: the install getter raises instead of giving `npm install --prod` | the npm tests' lines: `npm install --prod` outside dev mode, `npm update --dev` in it | not executed | AssetManager.NpmIntentMissed | AssetManager.IntendedNpmDefault |

`run` uses the npm getters as written (`InstallCommand`, `UpdateCommand`),
so an npm run raises; the intended lines are `IntendedNpmInstall` and
`IntendedNpmUpdate`, which put the extra option right after the subcommand.
