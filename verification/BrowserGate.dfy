/** InitializeExplicitBrowserConfig: one launch, from the command line to the published snapshot
    and the remembered selection, over the same disk and files as the modules it calls. */
module BrowserGate {

  import opened Wrappers
  import opened Text
  import opened Paths
  import opened FileSystem
  import opened Growth
  import opened EnvironmentRoots
  import opened Config
  import opened RuntimeConfig
  import StateText
  import opened StateRace
  import opened UserConfigState
  import Arguments

  /** What ResolveUserConfigPaths returns. */
  datatype UserConfigPaths = UserConfigPaths(configDirectory: string, configFile: string, stateDirectory: string,
                                             defaultRoot: string)

  function UserDirectories(paths: UserConfigPaths): Directories {
    map["config" := paths.configDirectory, "default" := paths.defaultRoot, "state" := paths.stateDirectory]
  }

  const USER_ORDER := ["config", "default", "state"]

  lemma UserOrder(dirs: Directories)
    requires dirs.Keys == {"config", "default", "state"}
    ensures IsOrderOf(USER_ORDER, dirs)
  {
    assert USER_ORDER[0] == "config" && USER_ORDER[1] == "default" && USER_ORDER[2] == "state";
    assert "config"[0] == 'c' && "default"[0] == 'd' && "state"[0] == 's';
  }

  function UserRoots(paths: UserConfigPaths, home: string): (r: map<string, seq<string>>)
    ensures r.Keys == {"config", "default", "state"}
  {
    Roots(paths.configFile, home, UserDirectories(paths))
  }

  datatype UserDirectory = ConfigDirectory | DefaultDirectory | StateDirectory

  function NameOf(which: UserDirectory): string {
    match which
    case ConfigDirectory => "config"
    case DefaultDirectory => "default"
    case StateDirectory => "state"
  }

  /** The component list of a user directory. */
  function UserRoot(paths: UserConfigPaths, home: string, which: UserDirectory): seq<string> {
    UserRoots(paths, home)[NameOf(which)]
  }

  function UserPath(paths: UserConfigPaths, home: string, which: UserDirectory): string {
    Resolved(paths.configFile, home, UserDirectories(paths))[NameOf(which)]
  }

  function DirIn(directories: map<string, Dir>, path: string): Dir {
    if path in directories then directories[path] else Dir(map[], map[], 0)
  }

  ghost predicate AreDirs(directories: map<string, Dir>) {
    forall p :: p in directories ==> IsDir(directories[p])
  }

  /** The name that a read of the state file in path reports, if it reports one. */
  ghost function Recall(directories: map<string, Dir>, path: string): Option<string>
    requires AreDirs(directories)
  {
    match Observed(DirIn(directories, path))
    case Remembered(name) => Some(name)
    case _ => None
  }

  lemma RecallUnchanged(before: map<string, Dir>, path: string, d: Dir)
    requires AreDirs(before) && IsDir(d) && IsUnchangedAt(DirIn(before, path), d, STATE)
    ensures AreDirs(before[path := d])
    ensures forall q :: Recall(before[path := d], q) == Recall(before, q)
  {
    hide Parsed;
  }

  /** One of the user's three directories can be prepared. */
  ghost predicate IsPreparable(fs: Fs, paths: UserConfigPaths, home: string, which: UserDirectory)
  {
    && IsFs(fs) && IsResolvable(paths.configFile, home, UserDirectories(paths)) && IsAudited(fs, UserRoots(paths, home))
    && CanFinish(fs, UserRoot(paths, home, which))
  }

  /** The graph once it is. */
  ghost function WithDirectory(fs: Fs, paths: UserConfigPaths, home: string, which: UserDirectory): Fs
    requires IsFs(fs)
  {
    MakePath(fs, fs.root, UserRoot(paths, home, which)).0
  }

  /** The configuration found in the directory d, or put there; None if what is there is not private. */
  function StoredConfig(d: Dir, template: string): Option<string> {
    if CONFIG !in d.entries then Some(template)
    else if d.entries[CONFIG] in d.files && d.files[d.entries[CONFIG]].isPrivate
    then Some(d.files[d.entries[CONFIG]].content)
    else None
  }

  /** A configuration file as LoadConfigFile reads it: its canonical name and its text. */
  datatype LoadedFile = LoadedFile(canonical: string, text: string)

  /** The machine: the directory graph, the files of the user's directories by path, the files
      that can be named with --config, and the TOML parser. */
  class Host {
    const disk: Disk
    const files: map<string, LoadedFile>
    const toml: string -> Option<Entries>
    var directories: map<string, Dir>

    constructor (disk: Disk, files: map<string, LoadedFile>, toml: string -> Option<Entries>, directories: map<string, Dir>)
      ensures this.disk == disk && this.files == files && this.toml == toml && this.directories == directories
    {
      this.disk, this.files, this.toml, this.directories := disk, files, toml, directories;
    }

    ghost predicate Valid()
      reads this, disk
    {
      IsFs(disk.fs) && AreDirs(directories)
    }

    ghost function Configured(text: string): Option<ParsedConfig> {
      if |text| <= MAX_CONFIG_BYTES && toml(text).Some? && Conforms(toml(text).value) then Some(ConfigOf(toml(text).value))
      else None
    }

    lemma SelectedIsPortable(text: string, selected: string)
      requires Configured(text).Some? && selected in DirectoriesOf(Configured(text).value.environments)
      ensures StateText.IsPortable(selected)
    {
      ConfiguredNameIsPortable(toml(text).value, selected);
    }

    lemma ConfiguredIsGiven(text: string)
      ensures Configured(text).Some? ==>
                |text| <= 1024 * 1024 && toml(text).Some? && IsGivenBy(toml(text).value, Configured(text).value)
    {
      hide Conforms, ConfigOf, IsGivenBy;
      if Configured(text).Some? { ConfigIsGiven(toml(text).value); }
    }

    /** Prepare: resolves the three user directories, then prepares one of them. */
    method PrepareUser(paths: UserConfigPaths, home: string, which: UserDirectory) returns (r: Result<Prepared, PathError>)
      requires Valid()
      modifies disk
      ensures Valid() && IsGrownFrom(old(disk.fs), disk.fs, {UserRoot(paths, home, which)})
      ensures r.Ok? <==> IsPreparable(old(disk.fs), paths, home, which)
      ensures r.Err? ==> disk.fs == old(disk.fs)
      ensures r.Ok? ==>
                && disk.fs == WithDirectory(old(disk.fs), paths, home, which)
                && IsResolvable(paths.configFile, home, UserDirectories(paths))
                && IsAudited(disk.fs, UserRoots(paths, home))
                && r.value.path == UserPath(paths, home, which)
    {
      hide ArePlaced, IsResolvable, IsAudited, Roots, Resolved, IsGrownFrom, MakePath, CanFinish, Trace, IsSafe, IsFs,
           AreDirs, IsOrderOf;
      GrownFromSelf(disk.fs, {UserRoot(paths, home, which)});
      UserOrder(UserDirectories(paths));
      var resolved := ResolveEnvironmentPaths(paths.configFile, home, UserDirectories(paths), USER_ORDER);
      if resolved.Err? { return Err(resolved.error); }
      ResolvedAgain(paths.configFile, home, UserDirectories(paths));
      UserOrder(resolved.value);
      r := disk.Prepare(paths.configFile, home, resolved.value, USER_ORDER, NameOf(which));
      GrownIsFs(old(disk.fs), disk.fs, {UserRoot(paths, home, which)});
    }

    /** EnsureDefaultConfig. Touches nothing but config.toml in the configuration directory. */
    method EnsureDefaultConfig(paths: UserConfigPaths, home: string, template: string, mayFail: bool)
      returns (text: Option<string>)
      requires Valid()
      modifies this, disk
      ensures Valid() && IsGrownFrom(old(disk.fs), disk.fs, {UserRoot(paths, home, ConfigDirectory)})
      ensures forall q :: Recall(directories, q) == Recall(old(directories), q)
      ensures forall q :: q != UserPath(paths, home, ConfigDirectory) ==> DirIn(directories, q) == DirIn(old(directories), q)
      ensures text.Some? ==>
                && IsPreparable(old(disk.fs), paths, home, ConfigDirectory)
                && disk.fs == WithDirectory(old(disk.fs), paths, home, ConfigDirectory)
                && IsResolvable(paths.configFile, home, UserDirectories(paths)) && IsAudited(disk.fs, UserRoots(paths, home))
                && text == StoredConfig(DirIn(old(directories), UserPath(paths, home, ConfigDirectory)), template)
      ensures !mayFail && IsPreparable(old(disk.fs), paths, home, ConfigDirectory) ==>
                text == StoredConfig(DirIn(old(directories), UserPath(paths, home, ConfigDirectory)), template)
    {
      hide IsResolvable, IsAudited, UserRoots, UserPath, IsGrownFrom, IsFs, Recall, IsPreparable, WithDirectory,
           StoredConfig, DirIn;
      var prepared := PrepareUser(paths, home, ConfigDirectory);
      if prepared.Err? { return None; }
      text := InstallConfig(prepared.value.path, template, mayFail);
    }

    /** Its part inside the configuration directory. */
    method InstallConfig(path: string, template: string, mayFail: bool) returns (text: Option<string>)
      requires AreDirs(directories)
      modifies this
      ensures AreDirs(directories)
      ensures forall q :: Recall(directories, q) == Recall(old(directories), q)
      ensures forall q :: q != path ==> DirIn(directories, q) == DirIn(old(directories), q)
      ensures text.Some? || !mayFail ==> text == StoredConfig(DirIn(old(directories), path), template)
    {
      hide Observed, Recall;
      var before := DirIn(directories, path);
      var d := new Directory(before, mayFail);
      var ok, created := d.EnsureDefaultConfig(template);
      StateIsNotConfig();
      RecallUnchanged(directories, path, d.dir);
      directories := directories[path := d.dir];
      if !ok { return None; }
      return Some(d.dir.files[d.dir.entries[CONFIG]].content);
    }

    /** ReadRememberedEnvironment. audited tells a refused audit from a failing read. */
    method ReadRemembered(paths: UserConfigPaths, home: string, mayFail: bool)
      returns (remembered: Option<string>, audited: bool, fine: bool)
      requires Valid()
      ensures audited <==>
                IsResolvable(paths.configFile, home, UserDirectories(paths)) && IsAudited(disk.fs, UserRoots(paths, home))
      ensures fine ==> audited && remembered == Recall(directories, UserPath(paths, home, StateDirectory))
      ensures audited && !fine ==> mayFail
    {
      hide IsResolvable, IsAudited, Roots, Resolved, IsFs, IsOrderOf, Observed;
      UserOrder(UserDirectories(paths));
      var resolved := disk.Audit(paths.configFile, home, UserDirectories(paths), USER_ORDER);
      if resolved.Err? { return None, false, false; }
      ResolvedNames(paths.configFile, home, UserDirectories(paths));
      var d := new Directory(DirIn(directories, resolved.value["state"]), mayFail);
      var outcome := d.ReadRemembered();
      if outcome.Remembered? { return Some(outcome.name), true, true; }
      return None, true, outcome != InputError;
    }

    /** WriteRememberedEnvironment; the result is None on success. */
    method WriteRemembered(paths: UserConfigPaths, home: string, name: string, pid: nat, mayFail: bool)
      returns (fault: Option<Fault>)
      requires Valid()
      modifies this, disk
      ensures Valid() && IsGrownFrom(old(disk.fs), disk.fs, {UserRoot(paths, home, StateDirectory)})
      ensures forall q :: q != UserPath(paths, home, StateDirectory) ==>
                DirIn(directories, q) == DirIn(old(directories), q) && Recall(directories, q) == Recall(old(directories), q)
      ensures var q := UserPath(paths, home, StateDirectory);
              && Recall(directories, q) == (if DidReplace(fault) then Some(name) else Recall(old(directories), q))
              && (fault == Some(NotPortable) <==> !StateText.IsPortable(name))
              && (fault == Some(Unprepared) <==>
                    StateText.IsPortable(name) && !IsPreparable(old(disk.fs), paths, home, StateDirectory))
              && (fault == Some(NoFreeName) <==>
                    StateText.IsPortable(name) && IsPreparable(old(disk.fs), paths, home, StateDirectory)
                    && !HasFreeName(DirIn(old(directories), q), pid))
              && (fault !in {None, Some(NotPortable), Some(Unprepared), Some(NoFreeName)} ==> mayFail)
      ensures fault in {Some(NotPortable), Some(Unprepared)} ==> disk.fs == old(disk.fs) && directories == old(directories)
    {
      hide IsResolvable, IsAudited, UserRoots, UserPath, IsGrownFrom, IsFs, Observed, TempName, StateText.StateFor,
           StateText.IsPortable, IsPreparable, HasFreeName, WithDirectory;
      GrownFromSelf(disk.fs, {UserRoot(paths, home, StateDirectory)});
      var portable := StateText.IsPortableName(name);
      if !portable { return Some(NotPortable); }
      var prepared := PrepareUser(paths, home, StateDirectory);
      if prepared.Err? { return Some(Unprepared); }
      fault := UpdateState(prepared.value.path, name, pid, mayFail);
    }

    /** Its part inside the state directory. */
    method UpdateState(path: string, name: string, pid: nat, mayFail: bool) returns (fault: Option<Fault>)
      requires AreDirs(directories) && StateText.IsPortable(name)
      modifies this
      ensures AreDirs(directories)
      ensures forall q :: q != path ==>
                DirIn(directories, q) == DirIn(old(directories), q) && Recall(directories, q) == Recall(old(directories), q)
      ensures Recall(directories, path) == if DidReplace(fault) then Some(name) else Recall(old(directories), path)
      ensures fault == Some(NoFreeName) <==> !HasFreeName(DirIn(old(directories), path), pid)
      ensures fault !in {Some(NotPortable), Some(Unprepared)} && (fault !in {None, Some(NoFreeName)} ==> mayFail)
    {
      hide Observed, TempName, StateText.StateFor, StateText.IsPortable, HasFreeName;
      var d := new Directory(DirIn(directories, path), mayFail);
      ghost var n, tail;
      fault, n, tail := d.WriteRemembered(name, pid);
      if !DidReplace(fault) {
        RecallUnchanged(directories, path, d.dir);
      }
      directories := directories[path := d.dir];
    }

    /** LoadConfigFile, once the text is read. */
    method Parse(text: string) returns (config: Option<ParsedConfig>)
      ensures config == Configured(text)
    {
      hide Conforms, ConfigOf;
      var parse := ParseConfig(|text|, toml(text));
      config := if parse.Accepted? then Some(parse.config) else None;
    }
  }

  lemma StateIsNotConfig()
    ensures STATE != CONFIG
  {
    assert STATE[0] == 's' && CONFIG[0] == 'c';
  }

  lemma GrownIsFs(a: Fs, b: Fs, ps: set<seq<string>>)
    requires IsGrownFrom(a, b, ps)
    ensures IsFs(b)
  {
  }

  /** Handing the resolved map on, as every caller does, resolves to the same map and roots. */
  lemma ResolvedAgain(configFile: string, home: string, dirs: Directories)
    requires IsResolvable(configFile, home, dirs)
    ensures var once := Resolved(configFile, home, dirs);
            && IsResolvable(configFile, home, once)
            && Resolved(configFile, home, once) == once
            && Roots(configFile, home, once) == Roots(configFile, home, dirs)
            && once.Keys == dirs.Keys
  {
    hide IsRoot, RootOf, AreAnchors, AreDistinctRoots;
    ResolveIsIdempotent(configFile, home, dirs, configFile, home);
    var once := Resolved(configFile, home, dirs);
    forall n | n in dirs
      ensures RootOf(configFile, home, once[n]) == RootOf(configFile, home, dirs[n])
    {
      ResolvedEntry(configFile, home, n, dirs[n], configFile, home);
    }
  }

  /* One launch. */

  const USER_DATA_DIR := "user-data-dir"

  /** The environment of the process. pid names its temporary files; mayFail: calls on the files of
      the user's directories may fail. */
  datatype Surroundings = Surroundings(rootOverride: Option<string>, home: Option<string>, paths: Option<UserConfigPaths>,
                                       template: string, pid: nat, mayFail: bool)

  /** std::nullopt, or a result code that ends the launch. */
  datatype Status = Proceed | Unsupported

  datatype Installed = Installed(snapshot: Snapshot, root: Prepared)

  /** What a launch did, for statements about several launches. recording: it tried to remember its
      selection; readOk: no failing call while reading the state file; fault: how writing it failed. */
  datatype Event = Event(published: bool, defaultMode: bool, recording: bool, explicit: Option<string>,
                         config: Option<ParsedConfig>, selected: string, statePath: string, readOk: bool,
                         fault: Option<Fault>)

  const NO_EVENT := Event(false, false, false, None, None, "", "", false, None)

  /** How one launch relates what its predecessors left at a state file path p to what it leaves. */
  ghost predicate IsStep(before: Option<string>, e: Event, after: Option<string>, p: string) {
    && (e.published && e.defaultMode && e.statePath == p && e.readOk ==>
          && e.config.Some?
          && Some(e.selected) == Selected(e.config.value, DirectoriesOf(e.config.value.environments).Keys, e.explicit, before))
    && (e.published && e.config.Some? ==> (e.recording ==> e.defaultMode && e.config.value.app.restoreLastEnvironment))
    && after == (if IsRecord(e, p) then Some(e.selected) else before)
  }

  /** The launch has replaced the state file at p. */
  predicate IsRecord(e: Event, p: string) {
    e.published && e.recording && e.statePath == p && DidReplace(e.fault)
  }

  predicate IsAbsolute(path: string) {
    path != "" && path[0] == '/'
  }

  /** Nonempty, without boundary whitespace. */
  predicate IsCleanValue(value: string) {
    value != "" && !Arguments.HasBoundaryWhitespace(value)
  }

  predicate IsAscii(s: string) {
    forall i :: 0 <= i < |s| ==> s[i] as int < 0x80
  }

  function SwitchValue(commandLine: map<string, string>, name: string): string {
    if name in commandLine then commandLine[name] else ""
  }

  /** What a launch that publishes may add to the directory graph besides. */
  function PublishRoots(around: Surroundings, selectedRoot: string, recording: bool): set<seq<string>> {
    {Components(selectedRoot)} + (if recording then StateRoots(around) else {})
  }

  /** How the checks before any file access end. */
  datatype Verdict = Stop(status: Status) | Go(filename: string, explicit: Option<string>, home: string)

  /** The roots that a default-mode launch may create before it selects anything. */
  function ConfigRoots(around: Surroundings): set<seq<string>> {
    if around.home.Some? && around.paths.Some? then {UserRoot(around.paths.value, around.home.value, ConfigDirectory)} else {}
  }

  function StateRoots(around: Surroundings): set<seq<string>> {
    if around.home.Some? && around.paths.Some? then {UserRoot(around.paths.value, around.home.value, StateDirectory)} else {}
  }

  /** What finding the configuration gives when no call fails: the graph afterwards, the file, and the
      remembered selection. */
  datatype Discovery = Discovery(fs: Fs, file: LoadedFile, remembered: Option<string>)

  class Browser {
    const host: Host
    const isValidStartupUrl: string -> bool
    var commandLine: map<string, string>
    var storage: Option<Installed>

    /** A valid child process. */
    predicate IsChild()
      reads this
    {
      "type" in commandLine && commandLine["type"] != "" && IsAscii(commandLine["type"])
    }

    /** A browser process whose root Chromium itself is told. */
    predicate IsOptOut(around: Surroundings)
      reads this
    {
      && "type" !in commandLine && around.rootOverride in {None, Some("")}
      && "config" !in commandLine && "environment" !in commandLine && USER_DATA_DIR in commandLine
    }

    /** A browser process that goes on to look for a configuration. */
    predicate Goes(around: Surroundings)
      reads this
    {
      && "type" !in commandLine && around.rootOverride in {None, Some("")}
      && !IsOptOut(around) && storage == None
      && ("config" in commandLine ==> IsCleanValue(commandLine["config"]))
      && ("environment" in commandLine ==> IsCleanValue(commandLine["environment"]))
      && around.home.Some? && IsAbsolute(around.home.value)
    }

    ghost function Discovered(around: Surroundings, home: string): Option<Discovery>
      requires host.Valid()
      reads this, host, host.disk
    {
      if "config" in commandLine then
        if commandLine["config"] !in host.files then None
        else Some(Discovery(host.disk.fs, host.files[commandLine["config"]], None))
      else if around.paths == None then None
      else
        var paths := around.paths.value;
        var stored := StoredConfig(DirIn(host.directories, UserPath(paths, home, ConfigDirectory)), around.template);
        if !IsPreparable(host.disk.fs, paths, home, ConfigDirectory) || stored == None then None
        else
          Some(Discovery(WithDirectory(host.disk.fs, paths, home, ConfigDirectory), LoadedFile(paths.configFile, stored.value),
                         Recall(host.directories, UserPath(paths, home, StateDirectory))))
    }

    /** The file and the selection that are found, spelled out. */
    lemma DiscoveredFile(around: Surroundings, home: string)
      requires host.Valid()
      ensures var d := Discovered(around, home);
              d.Some? ==>
                if "config" in commandLine
                then
                  && commandLine["config"] in host.files && d.value.file == host.files[commandLine["config"]]
                  && d.value.remembered == None
                else
                  && around.paths.Some?
                  && var paths := around.paths.value;
                     var c := DirIn(host.directories, UserPath(paths, home, ConfigDirectory));
                     && (CONFIG in c.entries ==> c.entries[CONFIG] in c.files && c.files[c.entries[CONFIG]].isPrivate)
                     && d.value.file ==
                          LoadedFile(paths.configFile,
                                     if CONFIG in c.entries then c.files[c.entries[CONFIG]].content else around.template)
                     && d.value.remembered == Recall(host.directories, UserPath(paths, home, StateDirectory))
    {
      hide CanFinish, IsAudited, IsResolvable, UserPath, Recall, DirIn, IsFs, MakePath, UserRoot, IsPreparable, WithDirectory;
    }

    /** Creating the default configuration does not get in the way of the state file. */
    lemma DiscoveryKeeps(around: Surroundings, home: string)
      requires host.Valid()
      ensures var d := Discovered(around, home);
              d.Some? && "config" !in commandLine ==>
                && around.paths.Some? && IsFs(d.value.fs)
                && UserPath(around.paths.value, home, ConfigDirectory) != UserPath(around.paths.value, home, StateDirectory)
                && (IsPreparable(host.disk.fs, around.paths.value, home, StateDirectory) ==>
                      IsPreparable(d.value.fs, around.paths.value, home, StateDirectory))
    {
      hide CanFinish, IsAudited, IsResolvable, UserPath, StoredConfig, Recall, DirIn, IsFs, MakePath, UserRoot;
      if Discovered(around, home).Some? && "config" !in commandLine {
        var paths := around.paths.value;
        UserPathsDiffer(paths, home);
        StaysPreparable(host.disk.fs, UserRoot(paths, home, ConfigDirectory), paths, home, StateDirectory);
      }
    }

    /** The snapshot that a configuration file stands for, on the graph fs: the file parses, all roots
        resolve and pass the audit, an environment is selected, every startup URL is valid, and a root on
        the command line is the selected one. */
    ghost function Loaded(fs: Fs, file: LoadedFile, home: string, remembered: Option<string>): Option<Snapshot>
      requires IsFs(fs)
      reads this
    {
      var config := host.Configured(file.text);
      if config == None then None
      else
        var dirs := DirectoriesOf(config.value.environments);
        var explicit := if "environment" in commandLine then Some(commandLine["environment"]) else None;
        var selected := Selected(config.value, dirs.Keys, explicit, remembered);
        if !IsResolvable(file.canonical, home, dirs) || !IsAudited(fs, Roots(file.canonical, home, dirs)) then None
        else if selected == None then None
        else
          var resolved := Resolved(file.canonical, home, dirs);
          assert selected.value in dirs && selected.value in resolved by {
            SelectedIsNamed(config.value, dirs.Keys, explicit, remembered);
          }
          var snapshot := Snapshot(config.value, file.canonical, resolved, selected.value, resolved[selected.value]);
          if AreUrlsValid(config.value.environments)
             && (USER_DATA_DIR in commandLine ==> IsNative(snapshot, home, commandLine[USER_DATA_DIR]))
          then Some(snapshot) else None
    }

    /** What is true of every snapshot that is accepted: it is what the file says, field by field; its selection
        is the environment asked for, else the remembered one if that is wanted and configured, else the
        default; and Chromium takes every startup URL. */
    ghost predicate IsAccepted(s: Snapshot, file: LoadedFile, explicit: Option<string>, remembered: Option<string>) {
      && |file.text| <= 1024 * 1024 && host.toml(file.text).Some? && IsGivenBy(host.toml(file.text).value, s.config)
      && s.configFilename == file.canonical
      && s.selected ==
           (if explicit.Some? then explicit.value
            else if s.config.app.restoreLastEnvironment && remembered.Some? && remembered.value in s.directories
            then remembered.value
            else s.config.app.defaultEnvironment)
      && (forall e, u :: e in s.config.environments && u in e.startupUrls ==> isValidStartupUrl(u))
    }

    /** Which file a snapshot comes from: the one given with --config, else the user's own, else the template;
        what is remembered counts only in the last two cases, and if it could be read. */
    ghost predicate IsChosen(s: Snapshot, around: Surroundings, home: string, explicit: Option<string>, readOk: bool)
      requires host.Valid()
      reads this, host, host.disk
    {
      if "config" in commandLine then
        commandLine["config"] in host.files && IsAccepted(s, host.files[commandLine["config"]], explicit, None)
      else
        && around.paths.Some?
        && var paths := around.paths.value;
           var d := DirIn(host.directories, UserPath(paths, home, ConfigDirectory));
           && (CONFIG in d.entries ==> d.entries[CONFIG] in d.files && d.files[d.entries[CONFIG]].isPrivate)
           && IsAccepted(s,
                         LoadedFile(paths.configFile,
                                    if CONFIG in d.entries then d.files[d.entries[CONFIG]].content else around.template),
                         explicit,
                         if readOk then Recall(host.directories, UserPath(paths, home, StateDirectory)) else None)
    }

    /** With an environment asked for that is the selection; with nothing else to go by it is the default. */
    predicate IsSelected(s: Snapshot, explicit: Option<string>, mayRemember: bool) {
      && (explicit.Some? ==> s.selected == explicit.value)
      && (explicit == None && !mayRemember ==> s.selected == s.config.app.defaultEnvironment)
      && (forall e, u :: e in s.config.environments && u in e.startupUrls ==> isValidStartupUrl(u))
    }

    lemma AcceptedSelects(s: Snapshot, file: LoadedFile, explicit: Option<string>, remembered: Option<string>)
      requires IsAccepted(s, file, explicit, remembered)
      ensures IsSelected(s, explicit, remembered.Some?)
    {
      hide IsGivenBy;
    }

    /** When a file is accepted, spelled out. */
    lemma LoadedExactly(fs: Fs, file: LoadedFile, home: string, remembered: Option<string>)
      requires IsFs(fs)
      ensures Loaded(fs, file, home, remembered).Some? <==>
                && |file.text| <= 1024 * 1024 && host.toml(file.text).Some? && Conforms(host.toml(file.text).value)
                && var c := ConfigOf(host.toml(file.text).value);
                   var dirs := DirectoriesOf(c.environments);
                   var roots := Roots(file.canonical, home, dirs);
                   && IsResolvable(file.canonical, home, dirs) && IsAudited(fs, roots)
                   && (forall e, u :: e in c.environments && u in e.startupUrls ==> isValidStartupUrl(u))
                   && var name := if "environment" in commandLine then commandLine["environment"]
                                  else if c.app.restoreLastEnvironment && remembered.Some? && remembered.value in dirs
                                  then remembered.value
                                  else c.app.defaultEnvironment;
                      && name in roots
                      && (USER_DATA_DIR in commandLine ==> NamesRoot(commandLine[USER_DATA_DIR], roots[name]))
    {
      hide Conforms, ConfigOf, IsResolvable, IsAudited, DirectoriesOf, Roots, Resolved, IsNative, NamesRoot, IsFs;
      if host.Configured(file.text).Some? {
        var c := host.Configured(file.text).value;
        var dirs := DirectoriesOf(c.environments);
        ResolvedNames(file.canonical, home, dirs);
        UrlsAreValid(c.environments);
        var explicit := if "environment" in commandLine then Some(commandLine["environment"]) else None;
        var selected := Selected(c, dirs.Keys, explicit, remembered);
        if selected.Some? && IsResolvable(file.canonical, home, dirs) && USER_DATA_DIR in commandLine {
          SelectedIsNamed(c, dirs.Keys, explicit, remembered);
          var directories := Resolved(file.canonical, home, dirs);
          NativeExactly(Snapshot(c, file.canonical, directories, selected.value, directories[selected.value]), home,
                        commandLine[USER_DATA_DIR]);
        }
      }
    }

    lemma UrlsAreValid(environments: seq<EnvironmentConfig>)
      ensures AreUrlsValid(environments) <==>
              forall e, u :: e in environments && u in e.startupUrls ==> isValidStartupUrl(u)
    {
    }

    predicate AreUrlsValid(environments: seq<EnvironmentConfig>) {
      forall i, j :: 0 <= i < |environments| && 0 <= j < |environments[i].startupUrls| ==>
        isValidStartupUrl(environments[i].startupUrls[j])
    }

    /** Exactly when a launch in which no call fails publishes. */
    ghost predicate WillPublish(around: Surroundings)
      requires host.Valid()
      reads this, host, host.disk
    {
      && Goes(around)
      && var d := Discovered(around, around.home.value);
         && d.Some? && IsFs(d.value.fs)
         && var s := Loaded(d.value.fs, d.value.file, around.home.value, d.value.remembered);
            s.Some? && IsFinishable(d.value.fs, s.value, around.home.value)
    }

    constructor (host: Host, isValidStartupUrl: string -> bool, commandLine: map<string, string>)
      ensures this.host == host && this.isValidStartupUrl == isValidStartupUrl
      ensures this.commandLine == commandLine && this.storage == None
    {
      this.host, this.isValidStartupUrl, this.commandLine, this.storage := host, isValidStartupUrl, commandLine, None;
    }

    /** The checks on switches and variables. */
    method CheckSwitches(around: Surroundings) returns (v: Verdict)
      ensures v.Go? <==> Goes(around)
      ensures v == Stop(Proceed) <==> IsChild() || IsOptOut(around)
      // A process of another type goes on only if that type is a nonempty ASCII text; a root that only
      // Chromium is told is left to it; an override variable refuses every other launch, and so does a
      // configuration that is already there.
      ensures if "type" in commandLine
              then v == Stop(if commandLine["type"] != "" && IsAscii(commandLine["type"]) then Proceed else Unsupported)
              else if around.rootOverride !in {None, Some("")} then v == Stop(Unsupported)
              else if "config" !in commandLine && "environment" !in commandLine && USER_DATA_DIR in commandLine
              then v == Stop(Proceed)
              else v == Stop(Unsupported) <==>
                   || storage.Some? || around.home == None || !IsAbsolute(around.home.value)
                   || ("config" in commandLine && !IsCleanValue(commandLine["config"]))
                   || ("environment" in commandLine && !IsCleanValue(commandLine["environment"]))
      ensures v.Go? ==>
                && storage == None && around.home == Some(v.home)
                && v.filename == SwitchValue(commandLine, "config")
                && v.explicit == (if "environment" in commandLine then Some(commandLine["environment"]) else None)
    {
      if "type" in commandLine {
        var processType := SwitchValue(commandLine, "type");
        if processType == "" || !IsAscii(processType) { return Stop(Unsupported); }
        return Stop(Proceed);
      }
      var hasExplicitConfig := "config" in commandLine;
      var filename := SwitchValue(commandLine, "config");
      if around.rootOverride.Some? && around.rootOverride.value != "" { return Stop(Unsupported); }
      if !hasExplicitConfig && "environment" !in commandLine && USER_DATA_DIR in commandLine { return Stop(Proceed); }
      if storage.Some? { return Stop(Unsupported); }
      if hasExplicitConfig && (filename == "" || Arguments.HasBoundaryWhitespace(filename)) { return Stop(Unsupported); }
      var selected: Option<string> := None;
      if "environment" in commandLine {
        selected := Some(SwitchValue(commandLine, "environment"));
        if selected.value == "" || Arguments.HasBoundaryWhitespace(selected.value) { return Stop(Unsupported); }
      }
      if around.home == None || around.home.value == "" || !IsAbsolute(around.home.value) { return Stop(Unsupported); }
      return Go(filename, selected, around.home.value);
    }

    /** Finding and reading the configuration; in default mode also the remembered selection. */
    method Discover(around: Surroundings, v: Verdict)
      returns (file: Option<LoadedFile>, remembered: Option<string>, ghost readOk: bool)
      requires host.Valid() && v.Go? && around.home == Some(v.home) && v.filename == SwitchValue(commandLine, "config")
      modifies host, host.disk
      ensures host.Valid() && IsGrownFrom(old(host.disk.fs), host.disk.fs, ConfigRoots(around))
      ensures "config" in commandLine ==>
                host.disk.fs == old(host.disk.fs) && host.directories == old(host.directories) && remembered == None
      ensures forall q :: Recall(host.directories, q) == Recall(old(host.directories), q)
      ensures file.Some? && "config" !in commandLine ==> around.paths.Some?
      ensures file.Some? && "config" !in commandLine && readOk ==>
                remembered == Recall(host.directories, UserPath(around.paths.value, v.home, StateDirectory))
      ensures file.Some? ==>
                && old(Discovered(around, v.home)).Some?
                && var d := old(Discovered(around, v.home)).value;
                   d.fs == host.disk.fs && d.file == file.value && remembered == if readOk then d.remembered else None
      ensures !readOk || (file == None && old(Discovered(around, v.home)).Some?) ==> around.mayFail && "config" !in commandLine
      ensures forall q :: !(around.paths.Some? && q == UserPath(around.paths.value, v.home, ConfigDirectory)) ==>
                DirIn(host.directories, q) == DirIn(old(host.directories), q)
    {
      hide Recall, IsGrownFrom, UserPath, UserRoots, IsFs, AreDirs, DirIn, IsResolvable, IsAudited, IsPreparable, WithDirectory,
           StoredConfig;
      remembered, readOk := None, true;
      NotGrown(host.disk.fs, ConfigRoots(around));
      if "config" in commandLine {
        if v.filename !in host.files { return None, None, true; }
        return Some(host.files[v.filename]), None, true;
      }
      if around.paths == None { return None, None, true; }
      var paths := around.paths.value;
      var text := host.EnsureDefaultConfig(paths, v.home, around.template, around.mayFail);
      if text == None { return None, None, true; }
      var audited, fine;
      remembered, audited, fine := host.ReadRemembered(paths, v.home, around.mayFail);
      // The directories were audited while creating the configuration, and creating it cannot have
      // upset that audit, so only a failing call can keep the state file from being read.
      assert audited;
      if !fine { remembered := None; }
      readOk := fine;
      return Some(LoadedFile(paths.configFile, text.value)), remembered, readOk;
    }

    /** NativeRootMatches: both paths mean the same components. */
    method NativeRootMatches(snapshot: Snapshot, home: string, supplied: string) returns (ok: bool)
      ensures ok <==> IsNative(snapshot, home, supplied)
    {
      hide ArePlaced, IsResolvable, AreAnchors, IsNormalizable, Root, Normal, Resolved, IsEncodedText;
      if !IsAbsolute(supplied) { return false; }
      var native := map["native" := supplied];
      NativeIsName();
      OneIsResolvable(snapshot.configFilename, home, "native", supplied);
      var resolved := ResolveEnvironmentPaths(snapshot.configFilename, home, native, ["native"]);
      return resolved.Ok? && resolved.value["native"] == snapshot.selectedRoot;
    }

    /** Every startup URL of every environment, before any root is made. */
    method CheckUrls(environments: seq<EnvironmentConfig>) returns (ok: bool)
      ensures ok <==> AreUrlsValid(environments)
    {
      for i := 0 to |environments|
        invariant forall k, j :: 0 <= k < i && 0 <= j < |environments[k].startupUrls| ==>
          isValidStartupUrl(environments[k].startupUrls[j])
      {
        var urls := environments[i].startupUrls;
        for j := 0 to |urls|
          invariant forall l :: 0 <= l < j ==> isValidStartupUrl(urls[l])
        {
          if !isValidStartupUrl(urls[j]) { return false; }
        }
      }
      return true;
    }

    /** InitializeExplicitBrowserConfig. */
    method Initialize(around: Surroundings) returns (status: Status, ghost e: Event)
      requires host.Valid()
      modifies this, host, host.disk
      ensures host.Valid()
      // When the launch goes on, and when it publishes.
      ensures status == Proceed <==> e.published || old(IsChild() || IsOptOut(around))
      ensures !(around.mayFail && "config" !in old(commandLine)) ==> (e.published <==> old(WillPublish(around)))
      // Only a call that publishes changes the process, and it succeeds; it publishes at most once.
      ensures storage == old(storage) ==> commandLine == old(commandLine) && !e.published
      ensures storage != old(storage) ==>
                && old(storage) == None && storage.Some? && status == Proceed && e.published
                && e.selected == storage.value.snapshot.selected
                && commandLine == old(commandLine)[USER_DATA_DIR := storage.value.snapshot.selectedRoot]
                && storage.value.root.path == storage.value.snapshot.selectedRoot
                && storage.value.snapshot.selected in storage.value.snapshot.directories
                && storage.value.snapshot.selectedRoot == storage.value.snapshot.directories[storage.value.snapshot.selected]
      // A root given on the command line is the published one.
      ensures e.published && USER_DATA_DIR in old(commandLine) ==>
                NamesRoot(old(commandLine)[USER_DATA_DIR], Components(storage.value.snapshot.selectedRoot))
      // Its selection is the environment asked for; without one, and without what was remembered, it is the
      // default of the file that counts. Chromium takes all of its startup URLs.
      ensures e.published ==>
                var s := storage.value.snapshot;
                && around.home.Some? && old(IsChosen(s, around, around.home.value, e.explicit, e.readOk))
                && (e.explicit.Some? ==> e.selected == e.explicit.value)
                && (e.explicit == None && !(e.defaultMode && e.readOk) ==> e.selected == s.config.app.defaultEnvironment)
                && (forall environment, u :: environment in s.config.environments && u in environment.startupUrls ==>
                      isValidStartupUrl(u))
      // Another process type, an override variable, a root that only Chromium is told and a configuration that is
      // already there all leave everything as it is.
      ensures old("type" in commandLine) || (around.rootOverride.Some? && around.rootOverride.value != "")
              || old("config" !in commandLine && "environment" !in commandLine && USER_DATA_DIR in commandLine)
              || old(storage.Some?) ==>
                !e.published && host.disk.fs == old(host.disk.fs) && host.directories == old(host.directories)
      // The published directory exists, is private, and is the end of the walk of its path.
      ensures storage != old(storage) ==>
                IsHeld(host.disk.fs, storage.value.root)
      // What is made: private directories of the default configuration, and, only if the launch publishes,
      // of the selected root, and of the state directory if it records.
      ensures !e.published ==> IsGrownFrom(old(host.disk.fs), host.disk.fs, ConfigRoots(around))
      ensures e.published ==>
                IsGrownFrom(old(host.disk.fs), host.disk.fs,
                            ConfigRoots(around) + PublishRoots(around, storage.value.snapshot.selectedRoot, e.recording))
      ensures !e.published && "config" in old(commandLine) ==>
                host.disk.fs == old(host.disk.fs) && host.directories == old(host.directories)
      ensures !e.published && around.home.Some? ==> forall q ::
                !(around.paths.Some? && q == UserPath(around.paths.value, around.home.value, ConfigDirectory)) ==>
                  DirIn(host.directories, q) == DirIn(old(host.directories), q)
      // The remembered selection.
      ensures e.defaultMode <==> e.published && "config" !in old(commandLine)
      ensures e.published ==> e.config == Some(storage.value.snapshot.config)
      ensures e.published ==>
                e.explicit == (if "environment" in old(commandLine) then Some(old(commandLine)["environment"]) else None)
      ensures e.recording <==> e.defaultMode && "incognito" !in old(commandLine)
                               && storage.value.snapshot.config.app.restoreLastEnvironment
      ensures e.defaultMode ==> around.paths.Some? && around.home.Some?
                                && e.statePath == UserPath(around.paths.value, around.home.value, StateDirectory)
      ensures forall q :: IsStep(Recall(old(host.directories), q), e, Recall(host.directories, q), q)
      ensures e.published && !around.mayFail ==> e.readOk
      ensures e.recording && !around.mayFail
                && IsPreparable(old(host.disk.fs), around.paths.value, around.home.value, StateDirectory)
                && HasFreeName(DirIn(old(host.directories), e.statePath), around.pid)
              ==> e.fault == None
    {
      hide Recall, IsGrownFrom, UserPath, UserRoots, IsFs, AreDirs, DirIn, IsSnapshot, IsHeld, IsSafe, Trace, Selected,
           DirectoriesOf, IsNormalizable, Normal, IsNative, IsFinishable, Browser.Discovered, Browser.Loaded, Browser.Goes,
           Browser.IsOptOut, Browser.IsChild, IsPreparable, WithDirectory, StoredConfig, HasFreeName, StateText.IsPortable,
           DidReplace, PublishRoots, ConfigRoots, Browser.IsChosen, NamesRoot, Components;
      status, e := Unsupported, NO_EVENT;
      var isDefault := "config" !in commandLine;
      var v := CheckSwitches(around);
      NotGrown(host.disk.fs, ConfigRoots(around));
      if v.Stop? {
        status := v.status;
        return;
      }
      DiscoveryKeeps(around, v.home);
      var snapshot;
      ghost var readOk;
      snapshot, readOk := Load(around, v);
      if snapshot == None { return; }
      var published;
      ghost var recording, fault;
      ghost var found := host.disk.fs;
      published, recording, fault := Publish(around, v.home, snapshot.value, isDefault);
      if !published { return; }
      GrownTransitive(old(host.disk.fs), found, host.disk.fs, ConfigRoots(around),
                      PublishRoots(around, snapshot.value.selectedRoot, recording));
      SnapshotRoot(snapshot.value, v.home);
      if USER_DATA_DIR in old(commandLine) { NativeExactly(snapshot.value, v.home, old(commandLine)[USER_DATA_DIR]); }
      e := Event(true, isDefault, recording, v.explicit, Some(snapshot.value.config), snapshot.value.selected,
                 if isDefault then UserPath(around.paths.value, v.home, StateDirectory) else "", readOk, fault);
      return Proceed, e;
    }

    /** Everything up to the preparation of the root: discovery, parsing, audit and selection, the
        startup URLs, and agreement with a root given on the command line. */
    method Load(around: Surroundings, v: Verdict) returns (r: Option<Snapshot>, ghost readOk: bool)
      requires host.Valid() && v.Go? && around.home == Some(v.home) && v.filename == SwitchValue(commandLine, "config")
      requires v.explicit == (if "environment" in commandLine then Some(commandLine["environment"]) else None)
      modifies host, host.disk
      ensures host.Valid() && IsGrownFrom(old(host.disk.fs), host.disk.fs, ConfigRoots(around))
      ensures "config" in commandLine ==> host.disk.fs == old(host.disk.fs) && host.directories == old(host.directories)
      ensures forall q :: Recall(host.directories, q) == Recall(old(host.directories), q)
      ensures forall q :: !(around.paths.Some? && q == UserPath(around.paths.value, v.home, ConfigDirectory)) ==>
                DirIn(host.directories, q) == DirIn(old(host.directories), q)
      ensures r.Some? ==> IsSnapshot(r.value, v.home)
      ensures r.Some? && USER_DATA_DIR in commandLine ==> IsNative(r.value, v.home, commandLine[USER_DATA_DIR])
      ensures r.Some? && "config" !in commandLine ==> around.paths.Some?
      ensures r.Some? && "config" !in commandLine && readOk ==>
                Some(r.value.selected) ==
                Selected(r.value.config, DirectoriesOf(r.value.config.environments).Keys, v.explicit,
                         Recall(host.directories, UserPath(around.paths.value, v.home, StateDirectory)))
      ensures r.Some? ==> StateText.IsPortable(r.value.selected)
      ensures r.Some? ==>
                && old(Discovered(around, v.home)).Some?
                && var d := old(Discovered(around, v.home)).value;
                   d.fs == host.disk.fs && r == Loaded(d.fs, d.file, v.home, if readOk then d.remembered else None)
      ensures r.Some? ==> old(IsChosen(r.value, around, v.home, v.explicit, readOk))
      ensures r.Some? ==> IsSelected(r.value, v.explicit, "config" !in commandLine && readOk)
      ensures !readOk ==> around.mayFail && "config" !in commandLine
      ensures r == None && !(around.mayFail && "config" !in commandLine) && old(Discovered(around, v.home)).Some? ==>
                var d := old(Discovered(around, v.home)).value;
                IsFs(d.fs) && Loaded(d.fs, d.file, v.home, d.remembered) == None
    {
      hide Recall, IsGrownFrom, UserPath, UserRoots, IsFs, AreDirs, DirIn, IsResolvable, IsAudited, Selected, DirectoriesOf,
           Roots, Resolved, IsNative, IsSnapshot, Browser.Discovered, Browser.Loaded, StateText.IsPortable, Browser.IsAccepted;
      var file, remembered;
      DiscoveredFile(around, v.home);
      file, remembered, readOk := Discover(around, v);
      if file == None { return None, readOk; }
      r := Accept(file.value, v, remembered);
    }

    /** From the text of the configuration to the snapshot. */
    method Accept(file: LoadedFile, v: Verdict, remembered: Option<string>) returns (r: Option<Snapshot>)
      requires IsFs(host.disk.fs) && v.Go?
      requires v.explicit == (if "environment" in commandLine then Some(commandLine["environment"]) else None)
      ensures r == Loaded(host.disk.fs, file, v.home, remembered)
      ensures r.Some? ==> IsAccepted(r.value, file, v.explicit, remembered)
      ensures r.Some? ==> IsSelected(r.value, v.explicit, remembered.Some?)
      ensures r.Some? ==> IsSnapshot(r.value, v.home)
      ensures r.Some? && USER_DATA_DIR in commandLine ==> IsNative(r.value, v.home, commandLine[USER_DATA_DIR])
      ensures r.Some? ==>
                Some(r.value.selected) ==
                Selected(r.value.config, DirectoriesOf(r.value.config.environments).Keys, v.explicit, remembered)
      ensures r.Some? ==> StateText.IsPortable(r.value.selected)
    {
      hide StateText.IsPortable, IsFs, IsResolvable, IsAudited, Selected, DirectoriesOf, Roots, Resolved, IsNative,
           Browser.AreUrlsValid, Host.Configured, IsGivenBy;
      var config := host.Parse(file.text);
      if config.Some? { ResolvedNames(file.canonical, v.home, DirectoriesOf(config.value.environments)); }
      var loaded, stale := LoadRuntimeConfig(host.disk, file.canonical, config, v.home, v.explicit, remembered);
      if loaded.Err? { return None; }
      var snapshot := loaded.value;
      assert snapshot.directories.Keys == DirectoriesOf(snapshot.config.environments).Keys;
      host.SelectedIsPortable(file.text, snapshot.selected);
      host.ConfiguredIsGiven(file.text);
      var urls := CheckUrls(snapshot.config.environments);
      if !urls { return None; }
      if USER_DATA_DIR in commandLine {
        var matches := NativeRootMatches(snapshot, v.home, commandLine[USER_DATA_DIR]);
        if !matches { return None; }
      }
      UrlsAreValid(snapshot.config.environments);
      AcceptedSelects(snapshot, file, v.explicit, remembered);
      return Some(snapshot);
    }

    /** Preparing the selected root, publishing, and remembering the selection. */
    method Publish(around: Surroundings, home: string, snapshot: Snapshot, isDefault: bool)
      returns (published: bool, ghost recording: bool, ghost fault: Option<Fault>)
      requires host.Valid() && storage == None && IsSnapshot(snapshot, home) && around.home == Some(home)
      requires isDefault ==> around.paths.Some?
      modifies this, host, host.disk
      ensures host.Valid()
      ensures !published ==> storage == None && commandLine == old(commandLine) && host.directories == old(host.directories)
      ensures !published ==> host.disk.fs == old(host.disk.fs)
      ensures published ==> IsGrownFrom(old(host.disk.fs), host.disk.fs, PublishRoots(around, snapshot.selectedRoot, recording))
      ensures published ==>
                && storage.Some? && storage.value.snapshot == snapshot
                && commandLine == old(commandLine)[USER_DATA_DIR := snapshot.selectedRoot]
                && storage.value.root.path == snapshot.selectedRoot
                && IsHeld(host.disk.fs, storage.value.root)
      ensures published <==> IsFinishable(old(host.disk.fs), snapshot, home)
      ensures published ==> (recording <==> isDefault && "incognito" !in old(commandLine)
                                            && snapshot.config.app.restoreLastEnvironment)
      ensures published && !recording ==> host.directories == old(host.directories)
      ensures published && recording ==>
                forall q :: Recall(host.directories, q)
                   == if q == UserPath(around.paths.value, home, StateDirectory) && DidReplace(fault) then Some(snapshot.selected)
                      else Recall(old(host.directories), q)
      ensures published && recording && !around.mayFail && StateText.IsPortable(snapshot.selected)
                && IsPreparable(old(host.disk.fs), around.paths.value, home, StateDirectory)
                && HasFreeName(DirIn(old(host.directories), UserPath(around.paths.value, home, StateDirectory)), around.pid)
              ==> fault == None
    {
      hide Recall, IsPreparable, HasFreeName, StateText.IsPortable, IsGrownFrom, UserPath, UserRoots, IsFs, AreDirs, DirIn,
           IsResolvable, IsAudited, Trace, IsSafe, IsSnapshot,
           DirectoriesOf, Roots, Resolved, CanFinish, MakePath, IsOrderOf, Components, DidReplace, UserRoot;
      published, recording, fault := false, false, None;
      var directories, order := DirectoriesFrom(snapshot.config.environments);
      SnapshotResolvesAgain(snapshot, home, order);
      var prepared := host.disk.Prepare(snapshot.configFilename, home, snapshot.directories, order, snapshot.selected);
      if prepared.Err? { return; }
      commandLine := commandLine[USER_DATA_DIR := snapshot.selectedRoot];
      storage := Some(Installed(snapshot, prepared.value));
      published := true;
      assert {Components(snapshot.selectedRoot)} + {} == {Components(snapshot.selectedRoot)};
      if isDefault && "incognito" !in commandLine && snapshot.config.app.restoreLastEnvironment {
        ghost var before := host.disk.fs;
        StaysPreparable(old(host.disk.fs), Roots(snapshot.configFilename, home, snapshot.directories)[snapshot.selected],
                        around.paths.value, home, StateDirectory);
        recording := true;
        var failure := host.WriteRemembered(around.paths.value, home, snapshot.selected, around.pid, around.mayFail);
        fault := failure;
        HeldDirectoryStays(before, host.disk.fs, {UserRoot(around.paths.value, home, StateDirectory)},
                           Components(prepared.value.path), prepared.value.directory);
        GrownTransitive(old(host.disk.fs), before, host.disk.fs, {Components(snapshot.selectedRoot)},
                        {UserRoot(around.paths.value, home, StateDirectory)});
      }
    }
  }

  /** A root on the command line names the selected one. */
  ghost predicate IsNative(s: Snapshot, home: string, supplied: string) {
    && IsAbsolute(supplied) && AreAnchors(s.configFilename, home)
    && IsNormalizable(supplied) && Root(supplied) != [] && Normal(supplied) == s.selectedRoot
  }

  /** An absolute path whose components, less the dots, are those of the root. */
  ghost predicate NamesRoot(supplied: string, root: seq<string>) {
    supplied != "" && supplied[0] == '/' && IsNormalizable(supplied) && Kept(Components(supplied)) == root
  }

  lemma NativeExactly(s: Snapshot, home: string, supplied: string)
    requires IsSnapshot(s, home)
    ensures s.selected in Roots(s.configFilename, home, DirectoriesOf(s.config.environments))
    ensures Components(s.selectedRoot) == Roots(s.configFilename, home, DirectoriesOf(s.config.environments))[s.selected]
    ensures IsNative(s, home, supplied) <==> NamesRoot(supplied, Components(s.selectedRoot))
  {
    hide Components, Canonical, AreAnchors, IsNormalizable, DirectoriesOf, Roots, Resolved;
    var dirs := DirectoriesOf(s.config.environments);
    ResolvedNames(s.configFilename, home, dirs);
    ResolvedIsPath(s.configFilename, home, dirs, s.selected);
    assert AreAnchors(s.configFilename, home) by { ResolvableHasAnchors(s.configFilename, home, dirs); }
    RootIsNames(supplied);
    if Root(supplied) != [] { ComponentsOfCanonical(Root(supplied)); }
  }

  lemma ResolvableHasAnchors(configFile: string, home: string, dirs: Directories)
    requires IsResolvable(configFile, home, dirs)
    ensures AreAnchors(configFile, home)
  {
  }

  /** The selected root of an audited snapshot can be prepared. */
  ghost predicate IsFinishable(fs: Fs, s: Snapshot, home: string)
    requires IsFs(fs)
  {
    var roots := Roots(s.configFilename, home, DirectoriesOf(s.config.environments));
    IsAudited(fs, roots) && s.selected in roots && CanFinish(fs, roots[s.selected])
  }

  /** Making a path takes nothing away from another directory's. */
  lemma StaysPreparable(fs: Fs, p: seq<string>, paths: UserConfigPaths, home: string, which: UserDirectory)
    requires IsFs(fs)
    ensures IsFs(MakePath(fs, fs.root, p).0)
    ensures IsPreparable(fs, paths, home, which) ==> IsPreparable(MakePath(fs, fs.root, p).0, paths, home, which)
  {
    hide IsResolvable, IsAudited, CanFinish, MakePath, UserRoots, IsFs;
    assert fs.root in fs.nodes by { RootIsThere(fs); }
    var steps := MakePathIsReplay(fs, fs.root, p);
    WalkAfterReplay(fs, steps, UserRoot(paths, home, which));
    if IsPreparable(fs, paths, home, which) {
      AuditAfterReplay(fs, steps, UserRoots(paths, home));
    }
  }

  lemma RootIsThere(fs: Fs)
    requires IsFs(fs)
    ensures fs.root in fs.nodes
  {
  }

  lemma UserPathsDiffer(paths: UserConfigPaths, home: string)
    requires IsResolvable(paths.configFile, home, UserDirectories(paths))
    ensures UserPath(paths, home, ConfigDirectory) != UserPath(paths, home, StateDirectory)
  {
    hide IsResolvable, Resolved, Roots, Components, IsRootPath;
    var dirs := UserDirectories(paths);
    ResolvedIsPath(paths.configFile, home, dirs, "config");
    ResolvedIsPath(paths.configFile, home, dirs, "state");
    RootsDiffer(paths.configFile, home, dirs, "config", "state");
  }

  lemma RootsDiffer(configFile: string, home: string, dirs: Directories, a: string, b: string)
    requires IsResolvable(configFile, home, dirs) && a in dirs && b in dirs && a != b
    ensures Roots(configFile, home, dirs)[a] != Roots(configFile, home, dirs)[b]
  {
    hide RootOf, IsRoot, AreAnchors;
    var roots := Roots(configFile, home, dirs);
    assert a in roots && b in roots;
    assert !Overlap(roots[a], roots[b]);
  }

  lemma SelectedIsNamed(config: ParsedConfig, names: set<string>, explicit: Option<string>, remembered: Option<string>)
    ensures Selected(config, names, explicit, remembered).Some? ==> Selected(config, names, explicit, remembered).value in names
  {
  }

  /** A snapshot as LoadRuntimeConfig makes it. */
  ghost predicate IsSnapshot(s: Snapshot, home: string) {
    && IsResolvable(s.configFilename, home, DirectoriesOf(s.config.environments))
    && s.directories == Resolved(s.configFilename, home, DirectoriesOf(s.config.environments))
    && s.selected in s.directories && s.selectedRoot == s.directories[s.selected]
  }

  lemma SnapshotRoot(s: Snapshot, home: string)
    requires IsSnapshot(s, home)
    ensures s.selected in s.directories && s.selectedRoot == s.directories[s.selected]
  {
  }

  /** The prepared directory is safe and ends the walk of its path. */
  ghost predicate IsHeld(fs: Fs, root: Prepared)
    requires IsFs(fs)
  {
    && root.directory in fs.nodes && IsSafe(fs.nodes[root.directory], fs.uid, true)
    && Last(Trace(fs, fs.root, Components(root.path))) == Visit(root.directory, [])
  }

  lemma NativeIsName()
    ensures IsEncodedText("native")
  {
    AsciiIsDisplayable("native");
    EncodedTextIsPlain("native");
  }

  lemma AbsoluteIsRoot(configFile: string, home: string, name: string, supplied: string)
    requires IsAbsolute(supplied) && IsEncodedText(name)
    ensures IsRoot(configFile, home, name, supplied) <==> IsNormalizable(supplied) && Root(supplied) != []
    ensures RootOf(configFile, home, supplied) == Root(supplied)
  {
    hide IsEncodedText, Root, Canonical, Components, AreShort, Parent, Normal;
    assert Expand(configFile, home, supplied) == Some(supplied);
  }

  /** A map of one absolute directory. */
  lemma OneIsResolvable(configFile: string, home: string, name: string, supplied: string)
    requires IsAbsolute(supplied) && IsEncodedText(name)
    ensures var one: Directories := map[name := supplied];
            && (IsResolvable(configFile, home, one) <==>
                AreAnchors(configFile, home) && IsNormalizable(supplied) && Root(supplied) != [])
            && Resolved(configFile, home, one).Keys == {name}
            && (Root(supplied) != [] ==> Resolved(configFile, home, one)[name] == Normal(supplied))
  {
    AbsoluteIsRoot(configFile, home, name, supplied);
    hide AreAnchors, IsRoot, IsNormalizable, Root, RootOf, Canonical, Overlap;
    var one: Directories := map[name := supplied];
    assert one[name] == supplied;
    assert AreDistinctRoots(Roots(configFile, home, one));
  }

  lemma NotGrown(fs: Fs, ps: set<seq<string>>)
    requires IsFs(fs)
    ensures IsGrownFrom(fs, fs, ps)
  {
    GrownFromSelf(fs, ps);
  }

  /** The gate prepares from the snapshot's resolved map; it stands for the same roots. */
  lemma SnapshotResolvesAgain(s: Snapshot, home: string, order: seq<string>)
    requires IsSnapshot(s, home) && IsOrderOf(order, DirectoriesOf(s.config.environments))
    ensures s.selected in s.directories && s.selectedRoot == s.directories[s.selected]
    ensures IsResolvable(s.configFilename, home, s.directories)
    ensures Resolved(s.configFilename, home, s.directories) == s.directories
    ensures Roots(s.configFilename, home, s.directories) == Roots(s.configFilename, home, DirectoriesOf(s.config.environments))
    ensures s.selected in Roots(s.configFilename, home, s.directories)
    ensures Components(s.selectedRoot) == Roots(s.configFilename, home, s.directories)[s.selected]
    ensures IsOrderOf(order, s.directories)
  {
    hide IsResolvable, Resolved, Roots, DirectoriesOf, IsRootPath, Components;
    var dirs := DirectoriesOf(s.config.environments);
    ResolvedAgain(s.configFilename, home, dirs);
    ResolvedIsPath(s.configFilename, home, dirs, s.selected);
  }

  /** A directory that was reached and checked stays reachable and checked while others are made. */
  lemma HeldDirectoryStays(b: Fs, c: Fs, ps: set<seq<string>>, p: seq<string>, n: Inode)
    requires IsGrownFrom(b, c, ps)
    requires IsFs(b) && n in b.nodes && IsSafe(b.nodes[n], b.uid, true) && Last(Trace(b, b.root, p)) == Visit(n, [])
    ensures IsFs(c) && c.root in c.nodes && n in c.nodes && IsSafe(c.nodes[n], c.uid, true)
    ensures Last(Trace(c, c.root, p)) == Visit(n, [])
  {
    hide Trace;
    TraceMonotone(b, c, b.root, p);
    var t, t' := Trace(b, b.root, p), Trace(c, c.root, p);
    TraceSuffix(b, b.root, p, |t| - 1);
    assert |t| == |p| + 1;
    assert t'[..|t|] == t;
    assert IsSameDirectory(b.nodes[n], c.nodes[n]);
  }

  /* Many launches. */

  /** What the latest launch that replaced the state file at p selected, or what was there at first. */
  function Latest(events: seq<Event>, p: string, initial: Option<string>): Option<string> {
    if events == [] then initial
    else if IsRecord(events[|events| - 1], p) then Some(events[|events| - 1].selected)
    else Latest(events[..|events| - 1], p, initial)
  }

  /** A history: recalls[i] is what the state file at p says before launch i. Between launches
      anything but that file may have changed, configuration files included. */
  ghost predicate IsHistory(events: seq<Event>, recalls: seq<Option<string>>, p: string) {
    && |recalls| == |events| + 1
    && forall i :: 0 <= i < |events| ==> IsStep(recalls[i], events[i], recalls[i + 1], p)
  }

  lemma {:induction false} RecallIsLatest(events: seq<Event>, recalls: seq<Option<string>>, p: string)
    requires IsHistory(events, recalls, p)
    ensures recalls[|events|] == Latest(events, p, recalls[0])
    decreases |events|
  {
    if events != [] {
      var k := |events| - 1;
      assert IsStep(recalls[k], events[k], recalls[k + 1], p);
      RecallIsLatest(events[..k], recalls[..k + 1], p);
    }
  }

  /** What a launch selects after the earlier ones. */
  ghost predicate IsRestored(e: Event, latest: Option<string>) {
    e.config.Some?
    && var names := DirectoriesOf(e.config.value.environments).Keys;
       e.selected ==
         if e.config.value.app.restoreLastEnvironment && latest.Some? && latest.value in names then latest.value
         else e.config.value.app.defaultEnvironment
  }

  /** Over any sequence of launches: a default-mode launch without --environment whose configuration
      restores selects the environment of the latest earlier launch that replaced the state file, if
      it is still configured, and the configured default otherwise. */
  lemma RestoresLatest(events: seq<Event>, recalls: seq<Option<string>>, p: string, i: nat)
    requires IsHistory(events, recalls, p) && i < |events|
    requires events[i].published && events[i].defaultMode && events[i].statePath == p && events[i].readOk
    requires events[i].explicit == None
    ensures IsRestored(events[i], Latest(events[..i], p, recalls[0]))
  {
    assert IsStep(recalls[i], events[i], recalls[i + 1], p);
    RecallIsLatest(events[..i], recalls[..i + 1], p);
  }

  ghost predicate IsLastRecord(events: seq<Event>, p: string, k: nat) {
    k < |events| && IsRecord(events[k], p) && forall l :: k < l < |events| ==> !IsRecord(events[l], p)
  }

  lemma LastRecordStays(events: seq<Event>, p: string, k: nat)
    requires events != [] && !IsRecord(events[|events| - 1], p)
    requires IsLastRecord(events[..|events| - 1], p, k)
    ensures IsLastRecord(events, p, k) && events[k] == events[..|events| - 1][k]
  {
    hide IsRecord;
    forall l | k < l < |events|
      ensures !IsRecord(events[l], p)
    {
      assert l < |events| - 1 ==> events[l] == events[..|events| - 1][l];
    }
  }

  /** What is remembered is the selection of the last launch that replaced the state file, or, if none
      did, what was there at first; launches that fail, opt out, use --config or run incognito leave
      nothing. */
  lemma {:induction false} LatestIsNormal(events: seq<Event>, p: string, initial: Option<string>)
    ensures
      || (Latest(events, p, initial) == initial && forall l :: 0 <= l < |events| ==> !IsRecord(events[l], p))
      || (exists k: nat :: IsLastRecord(events, p, k) && Latest(events, p, initial) == Some(events[k].selected))
    decreases |events|
  {
    hide IsRecord;
    if events != [] {
      var j := |events| - 1;
      if IsRecord(events[j], p) {
        assert IsLastRecord(events, p, j);
      } else {
        var before := events[..j];
        LatestIsNormal(before, p, initial);
        if k: nat :| IsLastRecord(before, p, k) && Latest(before, p, initial) == Some(before[k].selected) {
          LastRecordStays(events, p, k);
        } else {
          assert forall l :: 0 <= l < j ==> events[l] == before[l];
        }
      }
    }
  }

  /** A process to be started: its command line and its environment. */
  datatype Launch = Launch(commandLine: map<string, string>, around: Surroundings)

  /** What the state file at p says at each point of a series. */
  ghost function Recalls(states: seq<map<string, Dir>>, p: string): (r: seq<Option<string>>)
    requires forall i :: 0 <= i < |states| ==> AreDirs(states[i])
    ensures |r| == |states| && forall i :: 0 <= i < |states| ==> r[i] == Recall(states[i], p)
  {
    seq(|states|, i requires 0 <= i < |states| => Recall(states[i], p))
  }

  ghost predicate AreSteps(before: map<string, Dir>, e: Event, after: map<string, Dir>)
    requires AreDirs(before) && AreDirs(after)
  {
    forall p :: IsStep(Recall(before, p), e, Recall(after, p), p)
  }

  lemma StepsAreHistory(events: seq<Event>, states: seq<map<string, Dir>>, p: string)
    requires |states| == |events| + 1 && forall i :: 0 <= i < |states| ==> AreDirs(states[i])
    requires forall i {:trigger events[i]} :: 0 <= i < |events| ==> AreSteps(states[i], events[i], states[i + 1])
    ensures IsHistory(events, Recalls(states, p), p)
  {
    hide Recall, AreDirs, IsStep;
  }

  /** A series of launches from its steps: each default selection, and what the file says in the end. */
  lemma SeriesRestores(events: seq<Event>, states: seq<map<string, Dir>>)
    requires |states| == |events| + 1 && forall i :: 0 <= i < |states| ==> AreDirs(states[i])
    requires forall i {:trigger events[i]} :: 0 <= i < |events| ==> AreSteps(states[i], events[i], states[i + 1])
    ensures forall i :: 0 <= i < |events| && IsDefault(events[i]) ==>
              IsRestored(events[i], Latest(events[..i], events[i].statePath, Recall(states[0], events[i].statePath)))
    ensures forall p :: Recall(states[|events|], p) == Latest(events, p, Recall(states[0], p))
  {
    hide Recall, AreDirs, IsStep, IsHistory, IsRestored, Latest, AreSteps;
    forall p
      ensures Recall(states[|events|], p) == Latest(events, p, Recall(states[0], p))
    {
      StepsAreHistory(events, states, p);
      RecallIsLatest(events, Recalls(states, p), p);
    }
    forall i | 0 <= i < |events| && IsDefault(events[i])
      ensures IsRestored(events[i], Latest(events[..i], events[i].statePath, Recall(states[0], events[i].statePath)))
    {
      StepsAreHistory(events, states, events[i].statePath);
      RestoresLatest(events, Recalls(states, events[i].statePath), events[i].statePath, i);
    }
  }

  /** A default-mode launch without --environment that could read the state file. */
  predicate IsDefault(e: Event) {
    e.published && e.defaultMode && e.readOk && e.explicit == None
  }

  /** What the command line and the environment say about a launch that publishes. */
  predicate IsEventOf(e: Event, launch: Launch) {
    e.published ==>
      && e.config.Some?
      && (e.defaultMode <==> "config" !in launch.commandLine)
      && e.explicit == (if "environment" in launch.commandLine then Some(launch.commandLine["environment"]) else None)
      && ("environment" in launch.commandLine ==> e.selected == launch.commandLine["environment"])
      && ("environment" !in launch.commandLine && !(e.defaultMode && e.readOk) ==>
            e.selected == e.config.value.app.defaultEnvironment)
      && (e.recording <==>
            e.defaultMode && "incognito" !in launch.commandLine && e.config.value.app.restoreLastEnvironment)
      && (e.defaultMode ==>
            && launch.around.paths.Some? && launch.around.home.Some?
            && e.statePath == UserPath(launch.around.paths.value, launch.around.home.value, StateDirectory))
      && (!launch.around.mayFail ==> e.readOk)
  }

  /** One process. */
  method Start(host: Host, isValidStartupUrl: string -> bool, launch: Launch)
    returns (selected: Option<string>, ghost e: Event)
    requires host.Valid()
    modifies host, host.disk
    ensures host.Valid() && AreSteps(old(host.directories), e, host.directories)
    ensures selected == (if e.published then Some(e.selected) else None) && IsEventOf(e, launch)
  {
    hide Recall, IsFs, AreDirs, IsStep, UserPath;
    var browser := new Browser(host, isValidStartupUrl, launch.commandLine);
    var status;
    status, e := browser.Initialize(launch.around);
    selected := if browser.storage.Some? then Some(browser.storage.value.snapshot.selected) else None;
  }

  /** Launches one after another on one machine, each a process of its own. */
  method Series(host: Host, isValidStartupUrl: string -> bool, launches: seq<Launch>)
    returns (selected: seq<Option<string>>, ghost events: seq<Event>)
    requires host.Valid()
    modifies host, host.disk
    ensures host.Valid() && |selected| == |events| == |launches|
    ensures forall i :: 0 <= i < |events| ==>
              selected[i] == (if events[i].published then Some(events[i].selected) else None) && IsEventOf(events[i], launches[i])
    // A default launch selects by what the launches before it recorded.
    ensures forall i :: 0 <= i < |events| && IsDefault(events[i]) ==>
              IsRestored(events[i], Latest(events[..i], events[i].statePath, Recall(old(host.directories), events[i].statePath)))
    ensures forall p :: Recall(host.directories, p) == Latest(events, p, Recall(old(host.directories), p))
  {
    hide Recall, IsFs, AreDirs, AreSteps, IsRestored, Latest, IsDefault, IsEventOf;
    selected, events := [], [];
    ghost var states := [host.directories];
    for n := 0 to |launches|
      invariant host.Valid() && |selected| == |events| == n && |states| == n + 1
      invariant states[0] == old(host.directories) && states[n] == host.directories
      invariant forall i :: 0 <= i < |states| ==> AreDirs(states[i])
      invariant forall i {:trigger events[i]} :: 0 <= i < n ==> AreSteps(states[i], events[i], states[i + 1])
      invariant forall i :: 0 <= i < n ==>
        selected[i] == (if events[i].published then Some(events[i].selected) else None) && IsEventOf(events[i], launches[i])
    {
      var s;
      ghost var e;
      s, e := Start(host, isValidStartupUrl, launches[n]);
      selected := selected + [s];
      events := events + [e];
      states := states + [host.directories];
    }
    SeriesRestores(events, states);
  }
}
