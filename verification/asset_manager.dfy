/** The asset managers (`Asset/AbstractAssetManager.php` and its npm, Yarn
    and pnpm subclasses): how the command lines are built from the
    configuration, when the installed tree counts as updatable, how the
    manifest is merged, and the `run` protocol with its process timeout and
    fallback. */
module AssetManager {
  import opened Wrappers
  import Strings
  import opened OrderedMap
  import opened PhpValue
  import opened Files
  import opened Process
  import Manifest
  import AssetPackage
  import AssetFallback

  const NodeModules: string := "./node_modules"
  const PackageName: string := "package.json"
  const MergeMessage: string := "<info>Merging Composer dependencies in the asset package</info>"

  datatype Kind = Npm | Yarn | Pnpm

  /** `getName`. */
  function Name(k: Kind): string {
    match k
    case Npm => "npm"
    case Yarn => "yarn"
    case Pnpm => "pnpm"
  }

  /** `getLockPackageName`. */
  function LockFile(k: Kind): string {
    match k
    case Npm => "package-lock.json"
    case Yarn => "yarn.lock"
    case Pnpm => "pnpm-lock.yaml"
  }

  /** The manager's view of its surroundings: `get(key, default)` answers as
      the configuration's `get` does and may raise its exception; `windows`
      is the platform test. */
  datatype Context = Context(get: (string, Value) -> Result<Value>, windows: bool)

  /** A manager: its kind, the `updatable` switch and the optional
      fallback. */
  datatype Manager = Manager(kind: Kind, updatable: bool, fallback: Option<AssetFallback.Fallback>)

  /** `empty($s)` for a string: the empty string and `"0"`. */
  predicate EmptyString(s: string) {
    s == "" || s == "0"
  }

  /** One option group as appended to a command: nothing when empty. */
  function OptionText(s: string): (r: string)
    ensures EmptyString(s) <==> r == ""
    ensures !EmptyString(s) ==> r == " " + s
  {
    if EmptyString(s) then "" else " " + s
  }

  /** The binary with `/` turned into `\` on Windows: every character stays
      in place, and on Windows each slash becomes a backslash. */
  function PlatformBin(ctx: Context, bin: string): (r: string)
    ensures |r| == |bin|
    ensures forall i :: 0 <= i < |bin| ==> r[i] == if ctx.windows && bin[i] == '/' then '\\' else bin[i]
    ensures ctx.windows ==> '/' !in r
    ensures !ctx.windows ==> r == bin
  {
    if ctx.windows then
      Strings.ReplaceCharRemovesIt(bin, '/', "\\");
      Strings.ReplaceCharByChar(bin, '/', '\\');
      Strings.ReplaceAll(bin, "/", "\\")
    else bin
  }

  /** `buildCommand($defaultBin, $action, $command)`: the binary from
      `manager-bin` (or the default), the command, then the trimmed
      `manager-options` and `manager-<action>-options` when they are not
      empty. The options are trimmed as they are read, so an array there is
      rejected at once; an array binary only raises at the concatenation,
      after both options have been read. */
  function BuildCommand(ctx: Context, defaultBin: string, action: string, command: string): (r: Result<string>)
    ensures ctx.get("manager-bin", Str(defaultBin)).Failure? ==> r == Failure(ctx.get("manager-bin", Str(defaultBin)).error)
    ensures r.Success? ==> ctx.get("manager-options", Str("")).Success? && ctx.get("manager-" + action + "-options", Str("")).Success?
    ensures ctx.get("manager-bin", Str(defaultBin)).Success? && ctx.get("manager-bin", Str(defaultBin)).value.Arr?
      && ctx.get("manager-options", Str("")).Success? && !ctx.get("manager-options", Str("")).value.Arr?
      && ctx.get("manager-" + action + "-options", Str("")).Success? && !ctx.get("manager-" + action + "-options", Str("")).value.Arr?
      ==> r == Failure(ErrorException("Array to string conversion"))
  {
    var binValue :- ctx.get("manager-bin", Str(defaultBin));
    var globalValue :- ctx.get("manager-options", Str(""));
    var global :- TrimArgument(globalValue);
    var actionValue :- ctx.get("manager-" + action + "-options", Str(""));
    var options :- TrimArgument(actionValue);
    var bin :- ToStr(binValue);
    Success(CommandLine(PlatformBin(ctx, bin), command, Strings.TrimSpace(global), Strings.TrimSpace(options)))
  }

  /** The pieces of a command line joined in their order. */
  function CommandLine(bin: string, command: string, global: string, options: string): (r: string)
    ensures Strings.StartsWith(r, bin + " " + command)
    ensures EmptyString(global) && EmptyString(options) ==> r == bin + " " + command
    ensures !EmptyString(options) ==> |r| > |options| && r[|r| - |options| - 1..] == " " + options
  {
    var head := bin + " " + command;
    var r := head + OptionText(global) + OptionText(options);
    assert r[..|head|] == head;
    r
  }

  /** Nothing configured for this command: the three keys `buildCommand`
      reads answer their defaults, and the platform is not Windows. */
  predicate Unconfigured(ctx: Context, defaultBin: string, action: string) {
    && !ctx.windows
    && ctx.get("manager-bin", Str(defaultBin)) == Success(Str(defaultBin))
    && ctx.get("manager-options", Str("")) == Success(Str(""))
    && ctx.get("manager-" + action + "-options", Str("")) == Success(Str(""))
  }

  /** With nothing configured, the command is the default binary and the
      command, nothing more. */
  lemma BuildCommandDefault(ctx: Context, defaultBin: string, action: string, command: string)
    requires Unconfigured(ctx, defaultBin, action)
    ensures BuildCommand(ctx, defaultBin, action, command) == Success(defaultBin + " " + command)
  {
    assert Strings.TrimSpace("") == "";
    assert BuildCommand(ctx, defaultBin, action, command) == Success(CommandLine(defaultBin, command, "", ""));
  }

  /** With the three keys set to strings, the command is the platform's
      spelling of the binary, a space, the command, then the trimmed global
      options and the trimmed options of the action, each after a space
      unless it is empty. */
  lemma BuildCommandParts(ctx: Context, defaultBin: string, action: string, command: string, bin: string, global: string, options: string)
    requires ctx.get("manager-bin", Str(defaultBin)) == Success(Str(bin))
    requires ctx.get("manager-options", Str("")) == Success(Str(global))
    requires ctx.get("manager-" + action + "-options", Str("")) == Success(Str(options))
    ensures BuildCommand(ctx, defaultBin, action, command)
      == Success(PlatformBin(ctx, bin) + " " + command + OptionText(Strings.TrimSpace(global)) + OptionText(Strings.TrimSpace(options)))
    ensures var r := BuildCommand(ctx, defaultBin, action, command).value;
      var b := PlatformBin(ctx, bin);
      Strings.StartsWith(r, b + " " + command)
      && (ctx.windows ==> '/' !in b)
      && (EmptyString(Strings.TrimSpace(global)) && EmptyString(Strings.TrimSpace(options)) ==> r == b + " " + command)
      && (!EmptyString(Strings.TrimSpace(options)) ==> r[|r| - |Strings.TrimSpace(options)| - 1..] == " " + Strings.TrimSpace(options))
  {
    var b := PlatformBin(ctx, bin);
    assert BuildCommand(ctx, defaultBin, action, command)
      == Success(CommandLine(b, command, Strings.TrimSpace(global), Strings.TrimSpace(options)));
  }

  /** `getVersionCommand`. */
  function VersionCommand(m: Manager, ctx: Context): Result<string> {
    BuildCommand(ctx, Name(m.kind), "version", "--version")
  }

  /** The notice or warning PHP emits when npm's command getters read
      `$this->isDevMode`, a property no class declares; Composer's error
      handler raises it. */
  const UndefinedDevMode: Error := ErrorException("Undefined property: Foxy\\Asset\\NpmManager::$isDevMode")

  /** `getInstallCommand`. The npm manager first reads the undeclared
      `isDevMode`, which raises before any command is built. */
  function InstallCommand(m: Manager, ctx: Context): Result<string> {
    match m.kind
    case Npm => Failure(UndefinedDevMode)
    case Yarn => BuildCommand(ctx, "yarn", "install", "install --non-interactive")
    case Pnpm => BuildCommand(ctx, "pnpm", "install", "install")
  }

  /** `getUpdateCommand`: Yarn upgrades; npm raises as in `InstallCommand`. */
  function UpdateCommand(m: Manager, ctx: Context): Result<string> {
    match m.kind
    case Npm => Failure(UndefinedDevMode)
    case Yarn => BuildCommand(ctx, "yarn", "update", "upgrade --non-interactive")
    case Pnpm => BuildCommand(ctx, "pnpm", "update", "update")
  }

  /** The npm install command the manager's tests expect: `--prod` follows
      `install` outside Composer's dev mode. */
  function IntendedNpmInstall(ctx: Context, devMode: bool): Result<string> {
    BuildCommand(ctx, "npm", "install", if devMode then "install" else "install --prod")
  }

  /** The npm update command the manager's tests expect: `--dev` follows
      `update` in Composer's dev mode. */
  function IntendedNpmUpdate(ctx: Context, devMode: bool): Result<string> {
    BuildCommand(ctx, "npm", "update", if devMode then "update --dev" else "update")
  }

  /** With nothing configured, each manager asks its binary for `--version`. */
  lemma DefaultVersionCommand(m: Manager, ctx: Context)
    requires Unconfigured(ctx, Name(m.kind), "version")
    ensures VersionCommand(m, ctx) == Success(Name(m.kind) + " --version")
  {
    hide BuildCommand;
    BuildCommandDefault(ctx, Name(m.kind), "version", "--version");
    assert Name(m.kind) + " " + "--version" == Name(m.kind) + " --version";
  }

  /** npm's install and update commands raise whatever the configuration,
      so npm never runs either. */
  lemma NpmCommandsRaise(m: Manager, ctx: Context)
    requires m.kind == Npm
    ensures InstallCommand(m, ctx) == Failure(UndefinedDevMode)
    ensures UpdateCommand(m, ctx) == Failure(UndefinedDevMode)
    ensures Command(m, ctx, true).Failure? && Command(m, ctx, false).Failure?
  {
  }

  /** With nothing configured, the intended npm lines are those of the
      manager's tests: the install adds `--prod` outside dev mode, the update
      adds `--dev` in dev mode, and neither adds anything otherwise. */
  lemma IntendedNpmDefault(ctx: Context, devMode: bool)
    requires Unconfigured(ctx, "npm", "install") && Unconfigured(ctx, "npm", "update")
    ensures IntendedNpmInstall(ctx, devMode) == Success(if devMode then "npm install" else "npm install --prod")
    ensures IntendedNpmUpdate(ctx, devMode) == Success(if devMode then "npm update --dev" else "npm update")
  {
    hide BuildCommand;
    if devMode {
      BuildCommandDefault(ctx, "npm", "install", "install");
      BuildCommandDefault(ctx, "npm", "update", "update --dev");
      assert "npm" + " " + "install" == "npm install";
      assert "npm" + " " + "update --dev" == "npm update --dev";
    } else {
      BuildCommandDefault(ctx, "npm", "install", "install --prod");
      BuildCommandDefault(ctx, "npm", "update", "update");
      assert "npm" + " " + "install --prod" == "npm install --prod";
      assert "npm" + " " + "update" == "npm update";
    }
  }

  /** The npm commands as written are not the tests' lines: where the tests
      expect `npm install --prod` or `npm update --dev`, the written getters
      raise. */
  lemma NpmIntentMissed(m: Manager, ctx: Context, devMode: bool)
    requires m.kind == Npm && Unconfigured(ctx, "npm", "install") && Unconfigured(ctx, "npm", "update")
    ensures InstallCommand(m, ctx).Failure? && IntendedNpmInstall(ctx, devMode).Success?
    ensures UpdateCommand(m, ctx).Failure? && IntendedNpmUpdate(ctx, devMode).Success?
  {
    hide IntendedNpmInstall, IntendedNpmUpdate;
    IntendedNpmDefault(ctx, devMode);
  }

  const YarnInstallLine: string := "yarn install --non-interactive"
  const YarnUpdateLine: string := "yarn upgrade --non-interactive"
  const YarnCheckLine: string := "yarn check --non-interactive"

  lemma YarnInstallSpelled()
    ensures "yarn" + " " + "install --non-interactive" == YarnInstallLine
  {
  }

  lemma YarnUpdateSpelled()
    ensures "yarn" + " " + "upgrade --non-interactive" == YarnUpdateLine
  {
  }

  lemma YarnCheckSpelled()
    ensures "yarn" + " " + "check --non-interactive" == YarnCheckLine
  {
  }

  /** With nothing configured, Yarn installs non-interactively. */
  lemma DefaultYarnInstall(m: Manager, ctx: Context)
    requires m.kind == Yarn && Unconfigured(ctx, "yarn", "install")
    ensures InstallCommand(m, ctx) == Success(YarnInstallLine)
  {
    hide BuildCommand;
    BuildCommandDefault(ctx, "yarn", "install", "install --non-interactive");
    YarnInstallSpelled();
  }

  /** With nothing configured, Yarn updates with `upgrade`, non-interactively. */
  lemma DefaultYarnUpdate(m: Manager, ctx: Context)
    requires m.kind == Yarn && Unconfigured(ctx, "yarn", "update")
    ensures UpdateCommand(m, ctx) == Success(YarnUpdateLine)
  {
    hide BuildCommand;
    BuildCommandDefault(ctx, "yarn", "update", "upgrade --non-interactive");
    YarnUpdateSpelled();
  }

  /** With nothing configured, pnpm installs with `install`. */
  lemma DefaultPnpmInstall(m: Manager, ctx: Context)
    requires m.kind == Pnpm && Unconfigured(ctx, "pnpm", "install")
    ensures InstallCommand(m, ctx) == Success("pnpm install")
  {
    hide BuildCommand;
    BuildCommandDefault(ctx, "pnpm", "install", "install");
    assert "pnpm" + " " + "install" == "pnpm install";
  }

  /** With nothing configured, pnpm updates with `update`. */
  lemma DefaultPnpmUpdate(m: Manager, ctx: Context)
    requires m.kind == Pnpm && Unconfigured(ctx, "pnpm", "update")
    ensures UpdateCommand(m, ctx) == Success("pnpm update")
  {
    hide BuildCommand;
    BuildCommandDefault(ctx, "pnpm", "update", "update");
    assert "pnpm" + " " + "update" == "pnpm update";
  }

  /** `isAvailable`: the version command prints something besides blanks. */
  function IsAvailable(m: Manager, ctx: Context, exec: Executor): (r: Result<(bool, Executor)>)
    ensures VersionCommand(m, ctx).Failure? <==> r.Failure?
    ensures r.Success? ==> (|r.value.1.log| == |exec.log| + 1
      && r.value.1.log[|exec.log|].command == VersionCommand(m, ctx).value
      && (r.value.0 <==> Strings.TrimSpace(r.value.1.log[|exec.log|].output) != ""))
  {
    var command :- VersionCommand(m, ctx);
    var answer := Execute(exec, command);
    Success((Strings.TrimSpace(answer.output) != "", answer.next))
  }

  /** A manager whose executor has nothing to say is not available. */
  lemma SilentNotAvailable(m: Manager, ctx: Context, exec: Executor)
    requires |exec.script| == 0
    requires VersionCommand(m, ctx).Success?
    ensures IsAvailable(m, ctx, exec).Success? && !IsAvailable(m, ctx, exec).value.0
  {
    assert Strings.TrimSpace("") == "";
  }

  /** `isInstalled`: `./node_modules` is a directory and `package.json`
      exists; Yarn and pnpm also want their lock file. */
  predicate IsInstalled(k: Kind, fs: Tree) {
    IsDir(fs, NodeModules) && Exists(fs, PackageName) && (k != Npm ==> Exists(fs, LockFile(k)))
  }

  /** The command Yarn's `isValidForUpdate` runs. */
  function YarnCheckCommand(ctx: Context): Result<string> {
    BuildCommand(ctx, "yarn", "check", "check --non-interactive")
  }

  /** With nothing configured, Yarn checks its tree with
      `yarn check --non-interactive`. */
  lemma DefaultYarnCheck(ctx: Context)
    requires Unconfigured(ctx, "yarn", "check")
    ensures YarnCheckCommand(ctx) == Success(YarnCheckLine)
  {
    hide BuildCommand;
    BuildCommandDefault(ctx, "yarn", "check", "check --non-interactive");
    YarnCheckSpelled();
  }

  /** `isValidForUpdate`: always for npm and pnpm; Yarn runs its check
      command and wants exit code 0. */
  function IsValidForUpdate(m: Manager, ctx: Context, exec: Executor): (r: Result<(bool, Executor)>)
    ensures m.kind != Yarn ==> r == Success((true, exec))
    ensures m.kind == Yarn ==> (r.Failure? <==> YarnCheckCommand(ctx).Failure?)
    ensures m.kind == Yarn && r.Success? ==> (|r.value.1.log| == |exec.log| + 1
      && r.value.1.log[..|exec.log|] == exec.log
      && r.value.1.log[|exec.log|].command == YarnCheckCommand(ctx).value
      && (r.value.0 <==> r.value.1.log[|exec.log|].code == Some(0)))
  {
    if m.kind == Yarn then
      var command :- YarnCheckCommand(ctx);
      var answer := Execute(exec, command);
      Success((answer.code == Some(0), answer.next))
    else Success((true, exec))
  }

  /** `isUpdatable`: the switch, then `isInstalled`, then
      `isValidForUpdate`, each consulted only when the previous one holds. */
  function IsUpdatable(m: Manager, ctx: Context, fs: Tree, exec: Executor): (r: Result<(bool, Executor)>)
    ensures !m.updatable || !IsInstalled(m.kind, fs) ==> r == Success((false, exec))
    ensures m.updatable && IsInstalled(m.kind, fs) ==> r == IsValidForUpdate(m, ctx, exec)
  {
    if m.updatable && IsInstalled(m.kind, fs) then IsValidForUpdate(m, ctx, exec)
    else Success((false, exec))
  }

  /** Updatable means: switched on, installed, and valid for update. */
  lemma UpdatableMeans(m: Manager, ctx: Context, fs: Tree, exec: Executor)
    requires IsUpdatable(m, ctx, fs, exec).Success?
    ensures IsUpdatable(m, ctx, fs, exec).value.0 <==>
      m.updatable && IsInstalled(m.kind, fs) && IsValidForUpdate(m, ctx, exec).value.0
    ensures m.kind != Yarn ==> IsUpdatable(m, ctx, fs, exec).value.1 == exec
  {
  }

  /** The version mismatch message of `validate`. */
  function MismatchError(name: string, version: string, constraint: string): Error {
    RuntimeError("The installed " + name + " version \"" + version + "\" doesn't match with the constraint version \"" + constraint + "\"")
  }

  /** `validate`: the version printed by the binary must not be blank, and
      when `manager-version` is set it must satisfy that constraint.
      `matches(constraint, version)` stands for Composer's constraint
      parsing and matching; its failure is the exception a constraint that
      does not parse raises. */
  function Validate(m: Manager, ctx: Context, exec: Executor, matches: (string, string) -> Result<bool>): (r: Result<Executor>)
    ensures VersionCommand(m, ctx).Failure? ==> r == Failure(VersionCommand(m, ctx).error)
    ensures r.Success? ==> (|r.value.log| == |exec.log| + 1 && r.value.log[..|exec.log|] == exec.log
      && r.value.log[|exec.log|].command == VersionCommand(m, ctx).value)
  {
    var command :- VersionCommand(m, ctx);
    var answer := Execute(exec, command);
    var version := Strings.TrimSpace(answer.output);
    var constraint :- ctx.get("manager-version", Null);
    if version == "" then Failure(RuntimeError("The binary of \"" + Name(m.kind) + "\" must be installed"))
    else if Truthy(constraint) then
      var c :- ToStr(constraint);
      var ok :- matches(c, version);
      if ok then Success(answer.next)
      else Failure(MismatchError(Name(m.kind), version, c))
    else Success(answer.next)
  }

  /** The outcomes of `validate`: a blank version fails first; an unset
      constraint accepts any version; a set one accepts exactly the versions
      it matches, rejects the others with the mismatch message, and passes
      on the error of a constraint that does not parse. */
  lemma ValidateOutcome(m: Manager, ctx: Context, exec: Executor, matches: (string, string) -> Result<bool>, constraint: string)
    requires VersionCommand(m, ctx).Success?
    requires ctx.get("manager-version", Null).Success?
    ensures var out := Strings.TrimSpace(Execute(exec, VersionCommand(m, ctx).value).output);
      (out == "" ==> Validate(m, ctx, exec, matches) == Failure(RuntimeError("The binary of \"" + Name(m.kind) + "\" must be installed")))
      && (out != "" && !Truthy(ctx.get("manager-version", Null).value) ==> Validate(m, ctx, exec, matches).Success?)
      && (out != "" && ctx.get("manager-version", Null).value == Str(constraint) && constraint != "" && constraint != "0" ==>
            (Validate(m, ctx, exec, matches).Success? <==> matches(constraint, out) == Success(true))
            && (matches(constraint, out) == Success(false) ==> Validate(m, ctx, exec, matches) == Failure(MismatchError(Name(m.kind), out, constraint)))
            && (matches(constraint, out).Failure? ==> Validate(m, ctx, exec, matches) == Failure(matches(constraint, out).error)))
  {
  }

  /** Validation fails on an executor with nothing to say. */
  lemma ValidateSilent(m: Manager, ctx: Context, exec: Executor, matches: (string, string) -> Result<bool>)
    requires |exec.script| == 0
    requires VersionCommand(m, ctx).Success? && ctx.get("manager-version", Null).Success?
    ensures Validate(m, ctx, exec, matches) == Failure(RuntimeError("The binary of \"" + Name(m.kind) + "\" must be installed"))
  {
    assert Strings.TrimSpace("") == "";
  }

  /** `actionWhenComposerDependenciesAreAlreadyInstalled`: npm removes the
      `./node_modules/<name>` folder of every already installed name; the
      other managers do nothing. */
  function AlreadyInstalledEffects(k: Kind, names: seq<string>): (r: seq<Effect>)
    ensures k != Npm ==> r == []
    ensures Messages(r) == []
    decreases |names|
  {
    if k != Npm || |names| == 0 then []
    else [Remove(NodeModules + "/" + names[0])] + AlreadyInstalledEffects(k, names[1..])
  }

  /** The `./node_modules` folder of each name. */
  function Folders(names: seq<string>): (r: seq<string>)
    ensures |r| == |names|
    ensures forall i :: 0 <= i < |names| ==> r[i] == NodeModules + "/" + names[i]
  {
    seq(|names|, i requires 0 <= i < |names| => NodeModules + "/" + names[i])
  }

  /** npm removes each path as often as it is the folder of a reported
      name, and removes nothing else. */
  lemma {:induction false} AlreadyInstalledRemoves(names: seq<string>, path: string)
    ensures RemoveCount(AlreadyInstalledEffects(Npm, names), path) == multiset(Folders(names))[path]
    decreases |names|
  {
    if |names| > 0 {
      hide Folders;
      AlreadyInstalledRemoves(names[1..], path);
      FoldersCons(names);
    }
  }

  lemma FoldersCons(names: seq<string>)
    requires |names| > 0
    ensures Folders(names) == [NodeModules + "/" + names[0]] + Folders(names[1..])
  {
  }

  /** The merged manifest and the effects of `addDependencies`. */
  datatype Merge = Merge(package: Manifest.Package, effects: seq<Effect>)

  /** `addDependencies`: open `package.json` (decoding it when it is a
      file), prune, add, report the already installed names, announce the
      merge and write the manifest through `encode`. */
  function AddDependencies(m: Manager, fs: Tree, licenses: seq<string>, deps: Entries<string>,
                           decode: string -> Result<Value>, encode: Manifest.Package -> string): (r: Result<Merge>)
    ensures r.Success? ==> IsFile(fs, PackageName) ==> decode(fs[PackageName].content).Success?
    ensures r.Success? ==> (|r.value.effects| >= 2
      && r.value.effects[|r.value.effects| - 1] == Put(PackageName, encode(r.value.package))
      && Messages(r.value.effects) == [MergeMessage])
  {
    var document :- if IsFile(fs, PackageName) then decode(fs[PackageName].content) else Success(Null);
    var pkg := AssetPackage.Open(IsFile(fs, PackageName), document, licenses);
    var added :- AssetPackage.Sync(pkg, deps);
    var effects := AlreadyInstalledEffects(m.kind, added.existing)
      + [Output(MergeMessage), Put(PackageName, encode(added.package))];
    ApplyAppend(map[], AlreadyInstalledEffects(m.kind, added.existing), [Output(MergeMessage), Put(PackageName, encode(added.package))]);
    assert [Output(MergeMessage), Put(PackageName, encode(added.package))][1..] == [Put(PackageName, encode(added.package))];
    assert [Output(MergeMessage), Put(PackageName, encode(added.package))][1..][1..] == [];
    assert Messages([Put(PackageName, encode(added.package))]) == [] + Messages([]);
    assert Messages([Output(MergeMessage), Put(PackageName, encode(added.package))]) == [MergeMessage];
    Success(Merge(added.package, effects))
  }

  /** After merging, the file system holds the encoded manifest in
      `package.json`, and npm has removed the folder of every already
      installed name. */
  lemma AddDependenciesWrites(m: Manager, fs: Tree, licenses: seq<string>, deps: Entries<string>,
                              decode: string -> Result<Value>, encode: Manifest.Package -> string, name: string)
    requires AddDependencies(m, fs, licenses, deps, decode, encode).Success?
    ensures var merge := AddDependencies(m, fs, licenses, deps, decode, encode).value;
      var fs' := Apply(fs, merge.effects);
      IsFile(fs', PackageName) && fs'[PackageName].content == encode(merge.package)
  {
    hide AddDependencies;
    var merge := AddDependencies(m, fs, licenses, deps, decode, encode).value;
    var n := |merge.effects|;
    var front := merge.effects[..n - 1];
    assert merge.effects == front + [merge.effects[n - 1]];
    ApplyAppend(fs, front, [merge.effects[n - 1]]);
    assert [merge.effects[n - 1]][1..] == [];
  }

  const RunDisabled: int := 0

  /** The message announcing the run. */
  function RunMessage(updatable: bool, name: string): string {
    "<info>" + (if updatable then "Updating " else "Installing ") + name + " dependencies</info>"
  }

  /** The update command for an updatable tree, the install command otherwise. */
  function Command(m: Manager, ctx: Context, updatable: bool): Result<string> {
    if updatable then UpdateCommand(m, ctx) else InstallCommand(m, ctx)
  }

  /** What `run` leaves behind: its return value or exception, the executor
      with its log and timeout, whether the fallback's `restore` was called,
      and the console and file effects. */
  datatype RunOutcome = RunOutcome(result: Result<int>, executor: Executor, restored: bool, effects: seq<Effect>)

  /** The command runs under `exec`'s timeout; afterwards the timeout goes
      back to `previous`, and a positive exit code calls the fallback. */
  function Execution(m: Manager, ctx: Context, exec: Executor, cmd: string, previous: Value, info: seq<Effect>): (out: RunOutcome)
    ensures out.executor.timeout == previous
    ensures |out.executor.log| == |exec.log| + 1
    ensures out.executor.log[|exec.log|].command == cmd && out.executor.log[|exec.log|].timeout == exec.timeout
    ensures out.restored <==> ExitCode(out.executor.log[|exec.log|].code) > 0 && m.fallback.Some?
    ensures out.result.Success? ==> out.result.value == ExitCode(out.executor.log[|exec.log|].code)
    ensures ctx.get("fallback-asset", Null).Success? ==> out.result.Success?
    ensures |out.effects| >= |info| && out.effects[..|info|] == info
    ensures !out.restored ==> out.effects == info
    ensures out.restored ==> (m.fallback.Some?
      && (out.result.Success? <==> AssetFallback.Restore(m.fallback.value, ctx.get("fallback-asset", Null)).Success?)
      && (out.result.Success? ==> out.effects == info + AssetFallback.Restore(m.fallback.value, ctx.get("fallback-asset", Null)).value)
      && (out.result.Failure? ==> out.result.error == AssetFallback.Restore(m.fallback.value, ctx.get("fallback-asset", Null)).error))
  {
    var answer := Execute(exec, cmd);
    var res := ExitCode(answer.code);
    var after := answer.next.(timeout := previous);
    if res > 0 && m.fallback.Some? then
      match AssetFallback.Restore(m.fallback.value, ctx.get("fallback-asset", Null))
      case Failure(e) => RunOutcome(Failure(e), after, true, info)
      case Success(restore) => RunOutcome(Success(res), after, true, info + restore)
    else RunOutcome(Success(res), after, false, info)
  }

  /** `run` as written: the timeout is switched to `manager-timeout` before
      the command is built, and when building it raises an error the old
      timeout is not put back. */
  function RunAsWritten(m: Manager, ctx: Context, fs: Tree, exec: Executor): RunOutcome {
    match ctx.get("run-asset-manager", Null)
    case Failure(e) => RunOutcome(Failure(e), exec, false, [])
    case Success(enabled) =>
      if enabled != Bool(true) then RunOutcome(Success(RunDisabled), exec, false, [])
      else
        match IsUpdatable(m, ctx, fs, exec)
        case Failure(e) => RunOutcome(Failure(e), exec, false, [])
        case Success(u) =>
          var info := [Output(RunMessage(u.0, Name(m.kind)))];
          match ctx.get("manager-timeout", Null)
          case Failure(e) => RunOutcome(Failure(e), u.1, false, info)
          case Success(timeout) =>
            var exec2 := u.1.(timeout := timeout);
            match Command(m, ctx, u.0)
            case Failure(e) => RunOutcome(Failure(e), exec2, false, info)
            case Success(cmd) => Execution(m, ctx, exec2, cmd, u.1.timeout, info)
  }

  /** The written `run` can leave the executor on `manager-timeout`: with
      pnpm, a valid `manager-timeout` of 60 and a `manager-bin` whose
      environment value is not valid JSON, the run raises an error and the
      timeout stays at 60 instead of the 300 it had. */
  lemma RunAsWrittenLeaksTimeout()
    ensures var error := RuntimeError("The \"FOXY__MANAGER_BIN\" environment variable isn't a valid JSON");
      var ctx := Context((k: string, d: Value) =>
        if k == "manager-bin" then Failure(error)
        else if k == "run-asset-manager" then Success(Bool(true))
        else if k == "manager-timeout" then Success(Int(60))
        else Success(d), false);
      var out := RunAsWritten(Manager(Pnpm, true, None), ctx, map[], Executor([], [], Int(300)));
      out.result == Failure(error) && out.executor.timeout == Int(60)
  {
  }

  /** Every enabled npm run that reaches the command raises, and as written
      leaves `manager-timeout` in force; the corrected `run` puts the old
      timeout back. */
  lemma NpmRunAsWrittenLeaks(m: Manager, ctx: Context, fs: Tree, exec: Executor)
    requires m.kind == Npm
    requires ctx.get("run-asset-manager", Null) == Success(Bool(true))
    requires IsUpdatable(m, ctx, fs, exec).Success?
    requires ctx.get("manager-timeout", Null).Success?
    ensures RunAsWritten(m, ctx, fs, exec).result == Failure(UndefinedDevMode)
    ensures RunAsWritten(m, ctx, fs, exec).executor.timeout == ctx.get("manager-timeout", Null).value
    ensures Run(m, ctx, fs, exec).result == Failure(UndefinedDevMode)
    ensures Run(m, ctx, fs, exec).executor.timeout == exec.timeout
  {
    NpmCommandsRaise(m, ctx);
  }

  /** `run` with the timeout put back on every path that set it. */
  function Run(m: Manager, ctx: Context, fs: Tree, exec: Executor): (out: RunOutcome)
    ensures out.executor.timeout == exec.timeout
    ensures ctx.get("run-asset-manager", Null).Success? && ctx.get("run-asset-manager", Null).value != Bool(true)
      ==> out == RunOutcome(Success(RunDisabled), exec, false, [])
  {
    match ctx.get("run-asset-manager", Null)
    case Failure(e) => RunOutcome(Failure(e), exec, false, [])
    case Success(enabled) =>
      if enabled != Bool(true) then RunOutcome(Success(RunDisabled), exec, false, [])
      else
        match IsUpdatable(m, ctx, fs, exec)
        case Failure(e) => RunOutcome(Failure(e), exec, false, [])
        case Success(u) =>
          var info := [Output(RunMessage(u.0, Name(m.kind)))];
          match ctx.get("manager-timeout", Null)
          case Failure(e) => RunOutcome(Failure(e), u.1, false, info)
          case Success(timeout) =>
            var exec2 := u.1.(timeout := timeout);
            match Command(m, ctx, u.0)
            case Failure(e) => RunOutcome(Failure(e), u.1, false, info)
            case Success(cmd) => Execution(m, ctx, exec2, cmd, u.1.timeout, info)
  }

  /** When the command can be built, the two versions of `run` agree. */
  lemma RunAgreesWhenBuilt(m: Manager, ctx: Context, fs: Tree, exec: Executor)
    requires IsUpdatable(m, ctx, fs, exec).Success?
    requires Command(m, ctx, IsUpdatable(m, ctx, fs, exec).value.0).Success?
    ensures Run(m, ctx, fs, exec) == RunAsWritten(m, ctx, fs, exec)
  {
  }

  /** When nothing fails, `run` executes the update command exactly when the
      manager is updatable and the install command otherwise, with the
      `manager-timeout` value in force, returns the exit code, announces
      itself, and calls the fallback exactly when that code is positive and
      a fallback is set; the announcement is followed by the fallback's
      effects when it was called and by nothing otherwise. */
  lemma RunExecutes(m: Manager, ctx: Context, fs: Tree, exec: Executor)
    requires ctx.get("run-asset-manager", Null) == Success(Bool(true))
    requires IsUpdatable(m, ctx, fs, exec).Success?
    requires ctx.get("manager-timeout", Null).Success?
    requires Command(m, ctx, IsUpdatable(m, ctx, fs, exec).value.0).Success?
    requires ctx.get("fallback-asset", Null).Success?
    ensures var u := IsUpdatable(m, ctx, fs, exec).value;
      var out := Run(m, ctx, fs, exec);
      |out.executor.log| == |u.1.log| + 1
      && out.executor.log[|u.1.log|].command == Command(m, ctx, u.0).value
      && out.executor.log[|u.1.log|].timeout == ctx.get("manager-timeout", Null).value
      && out.result == Success(ExitCode(out.executor.log[|u.1.log|].code))
      && (out.restored <==> ExitCode(out.executor.log[|u.1.log|].code) > 0 && m.fallback.Some?)
      && out.effects[0] == Output(RunMessage(u.0, Name(m.kind)))
      && (!out.restored ==> out.effects == [Output(RunMessage(u.0, Name(m.kind)))])
      && (out.restored ==> (m.fallback.Some?
            && AssetFallback.Restore(m.fallback.value, ctx.get("fallback-asset", Null)).Success?
            && out.effects == [Output(RunMessage(u.0, Name(m.kind)))]
                 + AssetFallback.Restore(m.fallback.value, ctx.get("fallback-asset", Null)).value))
  {
    var u := IsUpdatable(m, ctx, fs, exec).value;
    var info := [Output(RunMessage(u.0, Name(m.kind)))];
    var exec2 := u.1.(timeout := ctx.get("manager-timeout", Null).value);
    var cmd := Command(m, ctx, u.0).value;
    assert Run(m, ctx, fs, exec) == Execution(m, ctx, exec2, cmd, u.1.timeout, info);
  }

  /** A disabled run returns 0 and leaves the executor and file system alone. */
  lemma RunDisabledDoesNothing(m: Manager, ctx: Context, fs: Tree, exec: Executor)
    requires ctx.get("run-asset-manager", Null).Success? && ctx.get("run-asset-manager", Null).value != Bool(true)
    ensures Run(m, ctx, fs, exec).result == Success(0)
    ensures Run(m, ctx, fs, exec).executor.log == exec.log
    ensures Apply(fs, Run(m, ctx, fs, exec).effects) == fs
  {
  }
}
