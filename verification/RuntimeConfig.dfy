/** LoadRuntimeConfig: auditing every configured environment and choosing one. */
module RuntimeConfig {

  import opened Wrappers
  import opened Paths
  import opened FileSystem
  import opened EnvironmentRoots
  import opened Config
  import StateText

  datatype Issue = ConfigFileIssue | EnvironmentPathIssue(error: PathError) | UnknownExplicitEnvironment | InternalSelection

  datatype Snapshot = Snapshot(config: ParsedConfig, configFilename: string, directories: Directories, selected: string,
                               selectedRoot: string)

  /** emplace: the first environment of a name wins. */
  function DirectoriesOf(environments: seq<EnvironmentConfig>): Directories {
    if environments == [] then map[]
    else
      var e := environments[|environments| - 1];
      var rest := DirectoriesOf(environments[..|environments| - 1]);
      if e.name in rest then rest else rest[e.name := e.dataDirectory]
  }

  /** DirectoriesFrom, with the order in which names entered the map. */
  method DirectoriesFrom(environments: seq<EnvironmentConfig>) returns (directories: Directories, order: seq<string>)
    ensures directories == DirectoriesOf(environments) && IsOrderOf(order, directories)
  {
    directories, order := map[], [];
    for i := 0 to |environments|
      invariant directories == DirectoriesOf(environments[..i]) && IsOrderOf(order, directories)
    {
      var e := environments[i];
      assert environments[..i + 1][..i] == environments[..i];
      if e.name !in directories {
        directories := directories[e.name := e.dataDirectory];
        order := order + [e.name];
      }
    }
    assert environments[..|environments|] == environments;
  }

  predicate HasDistinctNames(environments: seq<EnvironmentConfig>) {
    forall i, j :: 0 <= i < j < |environments| ==> environments[i].name != environments[j].name
  }

  /** emplace keeps the first: a name has the directory of the first environment of that name. */
  lemma {:induction false} FirstOfName(environments: seq<EnvironmentConfig>, i: nat)
    requires i < |environments| && forall j :: 0 <= j < i ==> environments[j].name != environments[i].name
    ensures environments[i].name in DirectoriesOf(environments)
    ensures DirectoriesOf(environments)[environments[i].name] == environments[i].dataDirectory
    decreases |environments|
  {
    var k := |environments| - 1;
    var init, e := environments[..k], environments[k];
    assert forall j :: 0 <= j < k ==> init[j] == environments[j];
    if i < k {
      FirstOfName(init, i);
    } else if e.name in DirectoriesOf(init) {
      OnlyTheirNames(init, e.name);
      assert false;
    }
  }

  lemma {:induction false} OnlyTheirNames(environments: seq<EnvironmentConfig>, n: string)
    requires n in DirectoriesOf(environments)
    ensures exists i :: 0 <= i < |environments| && environments[i].name == n
  {
    var k := |environments| - 1;
    if environments[k].name != n {
      OnlyTheirNames(environments[..k], n);
      var i :| 0 <= i < k && environments[..k][i].name == n;
      assert environments[i].name == n;
    }
  }

  /** With distinct names emplace drops nothing. */
  lemma {:induction false} NothingIsDropped(environments: seq<EnvironmentConfig>)
    requires HasDistinctNames(environments)
    ensures |DirectoriesOf(environments)| == |environments|
    ensures forall i :: 0 <= i < |environments| ==>
              environments[i].name in DirectoriesOf(environments)
              && DirectoriesOf(environments)[environments[i].name] == environments[i].dataDirectory
  {
    if environments != [] {
      var k := |environments| - 1;
      var init, e := environments[..k], environments[k];
      NothingIsDropped(init);
      if e.name in DirectoriesOf(init) {
        OnlyTheirNames(init, e.name);
        assert false;
      }
      assert forall i :: 0 <= i < k ==> environments[i] == init[i];
    }
  }

  /** The precedence: explicit, then remembered if restoring and still configured, then default. */
  function Selected(config: ParsedConfig, names: set<string>, explicit: Option<string>, remembered: Option<string>)
    : Option<string>
  {
    if explicit.Some? then (if explicit.value in names then explicit else None)
    else if config.app.restoreLastEnvironment && remembered.Some? && remembered.value in names then remembered
    else if config.app.defaultEnvironment in names then Some(config.app.defaultEnvironment)
    else None
  }

  /** LoadRuntimeConfig, given what LoadConfigFile returned: the canonical file name, and the
      configuration unless it was rejected. Inspects the disk and changes nothing. */
  method LoadRuntimeConfig(disk: Disk, filename: string, file: Option<ParsedConfig>, home: string,
                           explicit: Option<string>, remembered: Option<string>)
    returns (r: Result<Snapshot, Issue>, stale: bool)
    requires IsFs(disk.fs)
    ensures r.Ok? <==>
              && file.Some?
              && IsResolvable(filename, home, DirectoriesOf(file.value.environments))
              && IsAudited(disk.fs, Roots(filename, home, DirectoriesOf(file.value.environments)))
              && Selected(file.value, DirectoriesOf(file.value.environments).Keys, explicit, remembered).Some?
    ensures r.Ok? ==>
              var directories := Resolved(filename, home, DirectoriesOf(file.value.environments));
              var selected := Selected(file.value, directories.Keys, explicit, remembered);
              && selected.Some? && selected.value in directories
              && r.value == Snapshot(file.value, filename, directories, selected.value, directories[selected.value])
              && (stale <==> explicit == None && file.value.app.restoreLastEnvironment && remembered.Some?
                             && remembered.value !in directories)
    // Which environment that is: the one asked for; else the remembered one, if that is wanted and it is
    // still configured; else the default.
    ensures r.Ok? ==>
              var app := file.value.app;
              if explicit.Some? then r.value.selected == explicit.value
              else if app.restoreLastEnvironment && remembered.Some? && remembered.value in r.value.directories
              then r.value.selected == remembered.value
              else r.value.selected == app.defaultEnvironment
    // Without an error in file or roots, what fails is exactly an unknown name.
    ensures file.Some? && IsResolvable(filename, home, DirectoriesOf(file.value.environments))
            && IsAudited(disk.fs, Roots(filename, home, DirectoriesOf(file.value.environments)))
            && explicit.Some? ==>
              if explicit.value in DirectoriesOf(file.value.environments) then r.Ok? else r == Err(UnknownExplicitEnvironment)
    ensures r.Err? ==>
              match r.error
              case ConfigFileIssue => file == None
              case EnvironmentPathIssue(_) =>
                file.Some? && !(IsResolvable(filename, home, DirectoriesOf(file.value.environments))
                                && IsAudited(disk.fs, Roots(filename, home, DirectoriesOf(file.value.environments))))
              case UnknownExplicitEnvironment =>
                file.Some? && explicit.Some? && explicit.value !in DirectoriesOf(file.value.environments)
              case InternalSelection =>
                file.Some? && !exists i :: 0 <= i < |file.value.environments|
                                           && file.value.environments[i].name == file.value.app.defaultEnvironment
  {
    hide IsResolvable, IsAudited, Resolved, Roots, DirectoriesOf, IsFs;
    stale := false;
    if file == None { return Err(ConfigFileIssue), false; }
    var config := file.value;
    var directories, order := DirectoriesFrom(config.environments);
    ResolvedNames(filename, home, directories);
    var resolved := disk.Audit(filename, home, directories, order);
    if resolved.Err? { return Err(EnvironmentPathIssue(resolved.error)), false; }
    var selected := config.app.defaultEnvironment;
    if explicit.Some? {
      if explicit.value !in resolved.value { return Err(UnknownExplicitEnvironment), false; }
      selected := explicit.value;
    } else if config.app.restoreLastEnvironment && remembered.Some? {
      if remembered.value in resolved.value {
        selected := remembered.value;
      } else {
        stale := true;
      }
    }
    if selected !in resolved.value {
      NamesAreKept(config.environments);
      return Err(InternalSelection), stale;
    }
    return Ok(Snapshot(config, filename, resolved.value, selected, resolved.value[selected])), stale;
  }

  lemma {:induction false} NamesAreKept(environments: seq<EnvironmentConfig>)
    ensures forall i :: 0 <= i < |environments| ==> environments[i].name in DirectoriesOf(environments)
  {
    if environments != [] {
      NamesAreKept(environments[..|environments| - 1]);
    }
  }

  /** For every configuration that ParseConfig returns: no environment is dropped on the way to
      the audit, the default is always among the resolved names, so selection can fail only for an
      unknown explicit name, and every configured name can be remembered. */
  lemma ParsedConfigIsSelectable(root: Entries, explicit: Option<string>, remembered: Option<string>)
    requires Conforms(root)
    requires HasUniqueKeys(TableOr(Get(root, "environments")))
    ensures var config := ConfigOf(root);
            var directories := DirectoriesOf(config.environments);
            && HasDistinctNames(config.environments) && |directories| == |config.environments|
            && (forall i :: 0 <= i < |config.environments| ==>
                  var e := config.environments[i];
                  e.name in directories && directories[e.name] == e.dataDirectory && StateText.IsPortable(e.name))
            && config.app.defaultEnvironment in directories
            && (Selected(config, directories.Keys, explicit, remembered) == None <==>
                explicit.Some? && explicit.value !in directories)
  {
    hide Get, AreSections, UiOf, KeybindingsOf, AppOf, EnvironmentOf, IsEnvironment, IsEnvironmentName;
    var table := Get(root, "environments").value.entries;
    var config := ConfigOf(root);
    TablesOnly(table);
    EnvironmentNames(table);
    NothingIsDropped(config.environments);
    assert forall i :: 0 <= i < |table| ==> config.environments[i].name == table[i].0;
    forall i | 0 <= i < |table|
      ensures StateText.IsPortable(table[i].0)
    {
      SameNameRule(table[i].0);
    }
    DefaultIsNamed(table, config.app.defaultEnvironment);
  }

  lemma ConfiguredNameIsPortable(root: Entries, n: string)
    requires Conforms(root) && n in DirectoriesOf(ConfigOf(root).environments)
    ensures StateText.IsPortable(n)
  {
    hide Get, AreSections, UiOf, KeybindingsOf, AppOf, EnvironmentOf, IsEnvironment, IsEnvironmentName;
    var table := Get(root, "environments").value.entries;
    TablesOnly(table);
    EnvironmentNames(table);
    OnlyTheirNames(ConfigOf(root).environments, n);
    SameNameRule(n);
  }

  /** The schema and the state file use the same rule for names. */
  lemma SameNameRule(name: string)
    ensures IsEnvironmentName(name) <==> StateText.IsPortable(name)
  {
  }
}
