/** ParseConfig over an already parsed TOML tree, against a declarative schema. */
module Config {

  import opened Strings
  import opened Wrappers
  import opened Text
  import opened Shortcuts

  /** A TOML value. Tables list their entries in key order; the TOML parser makes keys unique.
      Other stands for floats, dates and times. */
  datatype Node =
    | String(text: string)
    | Integer(value: int)
    | Boolean(flag: bool)
    | Array(items: seq<Node>)
    | Table(entries: seq<(string, Node)>)
    | Other

  type Entries = seq<(string, Node)>

  predicate HasUniqueKeys(t: Entries) {
    forall i, j :: 0 <= i < j < |t| ==> t[i].0 != t[j].0
  }

  function Get(t: Entries, key: string): Option<Node> {
    if t == [] then None else if t[0].0 == key then Some(t[0].1) else Get(t[1..], key)
  }

  const MAX_CONFIG_BYTES := 1024 * 1024
  const MAX_ENVIRONMENTS := 256
  const MAX_STARTUP_URLS := 100

  datatype Theme = System | Light | Dark

  datatype UiConfig = UiConfig(sidebarWidth: int, sidebarCollapsed: bool, showTabCloseButtons: bool, topBarVisible: bool,
                               theme: Theme)

  datatype KeybindingsConfig = KeybindingsConfig(toggleTopBar: string, toggleTabBar: string)

  datatype AppConfig = AppConfig(defaultEnvironment: string, restoreLastEnvironment: bool)

  datatype EnvironmentConfig = EnvironmentConfig(name: string, dataDirectory: string, accentColor: Option<string>,
                                                 startupUrls: seq<string>)

  datatype ParsedConfig = ParsedConfig(ui: UiConfig, keybindings: KeybindingsConfig, app: AppConfig,
                                       environments: seq<EnvironmentConfig>)

  const DEFAULT_UI := UiConfig(280, false, true, true, System)
  const DEFAULT_KEYBINDINGS := KeybindingsConfig("Alt+K", "Alt+H")
  const DEFAULT_APP := AppConfig("personal", false)

  /* Field rules. */

  /** IsPortableEnvironmentName. */
  predicate IsEnvironmentName(name: string) {
    && 1 <= |name| <= 64 && IsAlphanumeric(name[0])
    && forall i :: 1 <= i < |name| ==> IsAlphanumeric(name[i]) || name[i] == '_' || name[i] == '-'
  }

  predicate IsHexDigit(c: char) {
    '0' <= c <= '9' || 'a' <= c <= 'f' || 'A' <= c <= 'F'
  }

  predicate IsHexColor(color: string) {
    |color| == 7 && color[0] == '#' && forall i :: 1 <= i < 7 ==> IsHexDigit(color[i])
  }

  ghost predicate HasControlBytes(s: string) {
    exists i: nat :: i < |s| && IsControlByte(s, i)
  }

  /** Everything before the first character of stops. */
  function Until(s: string, stops: string): string {
    if s == "" || s[0] in stops then "" else [s[0]] + Until(s[1..], stops)
  }

  predicate IsAuthority(remainder: string) {
    |remainder| >= 3 && remainder[..2] == "//"
    && Until(remainder[2..], "/?#") != "" && '@' !in Until(remainder[2..], "/?#")
  }

  /** IsStartupUrl: a scheme from a closed list, no control or space, and no user information. */
  ghost predicate IsStartupUrl(url: string) {
    && url != "" && !HasControlBytes(url) && ' ' !in url && ':' in url
    && var scheme := Until(url, ":");
    |scheme| < |url| &&
    var remainder := url[|scheme| + 1..];
    if scheme == "about" then remainder != "" && !(|remainder| >= 2 && remainder[..2] == "//") && '@' !in remainder
    else scheme in {"chrome", "http", "https"} && IsAuthority(remainder)
  }

  lemma {:induction false} UntilIsPrefix(s: string, stops: string)
    ensures |Until(s, stops)| <= |s|
    ensures (exists c :: c in s && c in stops) <==> |Until(s, stops)| < |s|
  {
    if s != "" && s[0] !in stops {
      UntilIsPrefix(s[1..], stops);
      assert forall c :: c in s <==> c == s[0] || c in s[1..];
    }
  }

  lemma {:induction false} UntilSplits(s: string, stops: string)
    ensures var u := Until(s, stops);
            && |u| <= |s| && s[..|u|] == u && (forall c :: c in u ==> c !in stops) && (|u| < |s| ==> s[|u|] in stops)
  {
    if s != "" && s[0] !in stops {
      UntilSplits(s[1..], stops);
    }
  }

  lemma {:induction false} UntilJoins(u: string, rest: string, stops: string)
    requires (forall c :: c in u ==> c !in stops) && (rest != "" ==> rest[0] in stops)
    ensures Until(u + rest, stops) == u
  {
    if u == "" {
      assert u + rest == rest;
    } else {
      assert (u + rest)[1..] == u[1..] + rest && u[0] in u;
      UntilJoins(u[1..], rest, stops);
    }
  }

  /** A nonempty host without user information, up to a path, a query or a fragment. */
  ghost predicate IsHostPart(rest: string) {
    exists host, tail :: IsHost(host, tail) && rest == "//" + host + tail
  }

  predicate IsHost(host: string, tail: string) {
    host != "" && (forall c :: c in host ==> c !in "/?#@") && (tail != "" ==> tail[0] in "/?#")
  }

  lemma AuthorityIsHost(rest: string)
    ensures IsAuthority(rest) <==> IsHostPart(rest)
  {
    if IsAuthority(rest) {
      var u := Until(rest[2..], "/?#");
      UntilSplits(rest[2..], "/?#");
      assert forall c :: c in u && c in "/?#@" ==> c in "/?#" || c == '@';
      assert IsHost(u, rest[2..][|u|..]) && rest == "//" + u + rest[2..][|u|..];
    }
    if host, tail :| IsHost(host, tail) && rest == "//" + host + tail {
      HostIsAuthority(host, tail, rest);
    }
  }

  lemma HostIsAuthority(host: string, tail: string, rest: string)
    requires IsHost(host, tail) && rest == "//" + host + tail
    ensures IsAuthority(rest)
  {
    assert rest[2..] == host + tail && rest[..2] == "//";
    assert forall c :: c in "/?#" ==> c in "/?#@";
    UntilJoins(host, tail, "/?#");
    assert '@' in "/?#@";
  }

  /** What remains after "about:" and after the other schemes. */
  ghost predicate IsRemainder(scheme: string, rest: string) {
    if scheme == "about" then rest != "" && !StartsWith(rest, "//") && '@' !in rest
    else scheme in {"chrome", "http", "https"} && IsHostPart(rest)
  }

  lemma SchemesHaveNoColon(scheme: string)
    requires scheme in {"about", "chrome", "http", "https"}
    ensures forall c :: c in scheme ==> c !in ":"
  {
  }

  /** The startup URLs: a scheme of the list and a colon; after about: something that is neither an
      authority nor holds an @, after the others a nonempty host without user information. */
  lemma StartupUrlParts(url: string)
    ensures IsStartupUrl(url) <==>
            && !HasControlBytes(url) && ' ' !in url
            && exists scheme, rest :: IsRemainder(scheme, rest) && url == scheme + ":" + rest
  {
    hide HasControlBytes, IsAuthority, IsHostPart;
    if IsStartupUrl(url) {
      UntilSplits(url, ":");
      var scheme := Until(url, ":");
      var rest := url[|scheme| + 1..];
      AuthorityIsHost(rest);
      assert IsRemainder(scheme, rest) && url == scheme + ":" + rest;
    }
    if scheme, rest :| IsRemainder(scheme, rest) && url == scheme + ":" + rest {
      SchemesHaveNoColon(scheme);
      assert url == scheme + (":" + rest);
      UntilJoins(scheme, ":" + rest, ":");
      assert url[|scheme|] == ':' && url[|scheme| + 1..] == rest;
      AuthorityIsHost(rest);
    }
  }

  method CheckStartupUrl(url: string) returns (ok: bool)
    ensures ok <==> IsStartupUrl(url)
  {
    var control := HasControl(url);
    if url == "" || control { return false; }
    if ' ' in url { return false; }
    if ':' !in url { return false; }
    UntilIsPrefix(url, ":");
    assert ':' in ":";
    var scheme := Until(url, ":");
    var remainder := url[|scheme| + 1..];
    if scheme == "about" {
      return remainder != "" && !(|remainder| >= 2 && remainder[..2] == "//") && '@' !in remainder;
    }
    if scheme == "chrome" {
      if |remainder| < 3 || remainder[..2] != "//" { return false; }
      var host := Until(remainder[2..], "/?#");
      return host != "" && '@' !in host;
    }
    if scheme != "http" && scheme != "https" { return false; }
    if |remainder| < 3 || remainder[..2] != "//" { return false; }
    var host := Until(remainder[2..], "/?#");
    return host != "" && '@' !in host;
  }

  /* The schema. */

  predicate KeysWithin(t: Entries, allowed: set<string>) {
    forall i :: 0 <= i < |t| ==> t[i].0 in allowed
  }

  const UI_KEYS := {"tabs_position", "sidebar_width", "sidebar_collapsed", "show_tab_close_buttons", "top_bar_visible", "theme"}

  predicate IsBoolean(n: Option<Node>) {
    n.Some? ==> n.value.Boolean?
  }

  predicate IsWidth(n: Option<Node>) {
    n.Some? ==> n.value.Integer? && 126 <= n.value.value <= 400
  }

  predicate IsTheme(n: Option<Node>) {
    n.Some? ==> n.value.String? && n.value.text in {"system", "light", "dark"}
  }

  predicate IsUi(t: Entries) {
    && KeysWithin(t, UI_KEYS)
    && Get(t, "tabs_position") in {None, Some(String("left"))}
    && IsWidth(Get(t, "sidebar_width"))
    && IsBoolean(Get(t, "sidebar_collapsed")) && IsBoolean(Get(t, "show_tab_close_buttons"))
    && IsBoolean(Get(t, "top_bar_visible"))
    && IsTheme(Get(t, "theme"))
  }

  function BooleanOr(n: Option<Node>, default: bool): bool {
    if n.Some? && n.value.Boolean? then n.value.flag else default
  }

  function StringOr(n: Option<Node>, default: string): string {
    if n.Some? && n.value.String? then n.value.text else default
  }

  function IntegerOr(n: Option<Node>, default: int): int {
    if n.Some? && n.value.Integer? then n.value.value else default
  }

  function ThemeOf(s: string): Theme {
    if s == "light" then Light else if s == "dark" then Dark else System
  }

  function UiOf(t: Entries): UiConfig {
    UiConfig(IntegerOr(Get(t, "sidebar_width"), 280), BooleanOr(Get(t, "sidebar_collapsed"), false),
             BooleanOr(Get(t, "show_tab_close_buttons"), true), BooleanOr(Get(t, "top_bar_visible"), true),
             if Get(t, "theme").Some? && Get(t, "theme").value.String? then ThemeOf(Get(t, "theme").value.text) else System)
  }

  ghost predicate IsShortcutNode(n: Option<Node>) {
    n.Some? ==> n.value.String? && (n.value.text == "" || IsEnabled(n.value.text))
  }

  /** The parsed shortcut: one that is missing or wrong leaves the default. */
  ghost function ShortcutOr(n: Option<Node>, default: string): string {
    if n.Some? && IsShortcutNode(n) then n.value.text else default
  }

  /** The node that the report of a conflict looks up, if there is one. */
  ghost function ConflictNode(t: Entries): Option<Option<Node>> {
    var top, tab := ShortcutOr(Get(t, "toggle_top_bar"), "Alt+K"), ShortcutOr(Get(t, "toggle_tab_bar"), "Alt+H");
    if top != "" && top == tab then Some(Get(t, "toggle_tab_bar")) else None
  }

  function KeybindingsOf(t: Entries): KeybindingsConfig {
    KeybindingsConfig(StringOr(Get(t, "toggle_top_bar"), "Alt+K"), StringOr(Get(t, "toggle_tab_bar"), "Alt+H"))
  }

  ghost predicate IsKeybindings(t: Entries) {
    && KeysWithin(t, {"toggle_top_bar", "toggle_tab_bar"})
    && IsShortcutNode(Get(t, "toggle_top_bar")) && IsShortcutNode(Get(t, "toggle_tab_bar"))
    && (KeybindingsOf(t).toggleTopBar != "" ==> KeybindingsOf(t).toggleTopBar != KeybindingsOf(t).toggleTabBar)
  }

  predicate IsApp(t: Entries) {
    && KeysWithin(t, {"default_environment", "restore_last_environment"})
    && (Get(t, "default_environment").Some? ==> Get(t, "default_environment").value.String?)
    && IsBoolean(Get(t, "restore_last_environment"))
  }

  function AppOf(t: Entries): AppConfig {
    AppConfig(StringOr(Get(t, "default_environment"), "personal"), BooleanOr(Get(t, "restore_last_environment"), false))
  }

  ghost predicate AreStartupUrls(items: seq<Node>) {
    |items| <= MAX_STARTUP_URLS && forall i :: 0 <= i < |items| ==> items[i].String? && IsStartupUrl(items[i].text)
  }

  ghost predicate IsEnvironment(t: Entries) {
    && KeysWithin(t, {"data_directory", "accent_color", "startup_urls"})
    && Get(t, "data_directory").Some? && Get(t, "data_directory").value.String?
    && Get(t, "data_directory").value.text != "" && !HasControlBytes(Get(t, "data_directory").value.text)
    && (Get(t, "accent_color").Some? ==> Get(t, "accent_color").value.String? && IsHexColor(Get(t, "accent_color").value.text))
    && (Get(t, "startup_urls").Some? ==>
          Get(t, "startup_urls").value.Array? && AreStartupUrls(Get(t, "startup_urls").value.items))
  }

  function Texts(items: seq<Node>): seq<string> {
    if items == [] then [] else (if items[0].String? then [items[0].text] else []) + Texts(items[1..])
  }

  function EnvironmentOf(name: string, t: Entries): EnvironmentConfig {
    EnvironmentConfig(name, StringOr(Get(t, "data_directory"), ""),
                      if Get(t, "accent_color").Some? && Get(t, "accent_color").value.String?
                      then Some(Get(t, "accent_color").value.text) else None,
                      if Get(t, "startup_urls").Some? && Get(t, "startup_urls").value.Array?
                      then Texts(Get(t, "startup_urls").value.items) else [])
  }

  ghost predicate AreEnvironments(t: Entries) {
    && 1 <= |t| <= MAX_ENVIRONMENTS
    && forall i :: 0 <= i < |t| ==> IsEnvironmentName(t[i].0) && t[i].1.Table? && IsEnvironment(t[i].1.entries)
  }

  function EnvironmentsOf(t: Entries): seq<EnvironmentConfig> {
    if t == [] then []
    else (if t[0].1.Table? then [EnvironmentOf(t[0].0, t[0].1.entries)] else []) + EnvironmentsOf(t[1..])
  }

  predicate IsTableOrAbsent(n: Option<Node>) {
    n.Some? ==> n.value.Table?
  }

  function TableOr(n: Option<Node>): Entries {
    if n.Some? && n.value.Table? then n.value.entries else []
  }

  ghost predicate AreSections(root: Entries) {
    && IsTableOrAbsent(Get(root, "ui")) && IsUi(TableOr(Get(root, "ui")))
    && IsTableOrAbsent(Get(root, "keybindings")) && IsKeybindings(TableOr(Get(root, "keybindings")))
    && IsTableOrAbsent(Get(root, "app")) && IsApp(TableOr(Get(root, "app")))
  }

  /** The whole document conforms to schema version 1. */
  ghost predicate Conforms(root: Entries) {
    && KeysWithin(root, {"schema_version", "ui", "keybindings", "app", "environments"})
    && Get(root, "schema_version") == Some(Integer(1))
    && AreSections(root)
    && Get(root, "environments").Some? && Get(root, "environments").value.Table?
    && AreEnvironments(Get(root, "environments").value.entries)
    && exists i :: 0 <= i < |Get(root, "environments").value.entries|
                   && Get(root, "environments").value.entries[i].0 == AppOf(TableOr(Get(root, "app"))).defaultEnvironment
  }

  function ConfigOf(root: Entries): ParsedConfig {
    ParsedConfig(UiOf(TableOr(Get(root, "ui"))), KeybindingsOf(TableOr(Get(root, "keybindings"))),
                 AppOf(TableOr(Get(root, "app"))), EnvironmentsOf(TableOr(Get(root, "environments"))))
  }

  /* The parser. Each step appends the keys it complains about to the diagnostics, and appends
     none exactly when its part of the schema holds. */

  type Errors = seq<string>

  method CheckUnknownKeys(before: Errors, t: Entries, prefix: string, allowed: set<string>) returns (errors: Errors)
    ensures before <= errors && (errors == before <==> KeysWithin(t, allowed))
  {
    errors := before;
    for i := 0 to |t|
      invariant before <= errors && (errors == before <==> KeysWithin(t[..i], allowed))
    {
      assert t[..i + 1] == t[..i] + [t[i]];
      if t[i].0 !in allowed {
        errors := errors + [if prefix == "" then t[i].0 else prefix + "." + t[i].0];
        assert t[..i + 1][i].0 !in allowed;
      } else {
        assert KeysWithin(t[..i], allowed) ==> KeysWithin(t[..i + 1], allowed);
        assert KeysWithin(t[..i + 1], allowed) ==> forall j :: 0 <= j < i ==> t[..i + 1][j] == t[..i][j];
      }
    }
    assert t[..|t|] == t;
  }

  method OptionalTable(before: Errors, parent: Entries, key: string) returns (errors: Errors, table: Option<Entries>)
    ensures before <= errors && (errors == before <==> IsTableOrAbsent(Get(parent, key)))
    ensures table.Some? <==> Get(parent, key).Some? && Get(parent, key).value.Table?
    ensures table.Some? ==> table.value == Get(parent, key).value.entries
  {
    var node := Get(parent, key);
    if node == None { return before, None; }
    if !node.value.Table? { return before + [key], None; }
    return before, Some(node.value.entries);
  }

  method OptionalString(before: Errors, t: Entries, key: string, fullKey: string)
    returns (errors: Errors, value: Option<string>)
    ensures before <= errors && (errors == before <==> (Get(t, key).Some? ==> Get(t, key).value.String?))
    ensures value.Some? <==> Get(t, key).Some? && Get(t, key).value.String?
    ensures value.Some? ==> value.value == Get(t, key).value.text
  {
    var node := Get(t, key);
    if node == None { return before, None; }
    if !node.value.String? { return before + [fullKey], None; }
    return before, Some(node.value.text);
  }

  method OptionalInteger(before: Errors, t: Entries, key: string, fullKey: string)
    returns (errors: Errors, value: Option<int>)
    ensures before <= errors && (errors == before <==> (Get(t, key).Some? ==> Get(t, key).value.Integer?))
    ensures value.Some? <==> Get(t, key).Some? && Get(t, key).value.Integer?
    ensures value.Some? ==> value.value == Get(t, key).value.value
  {
    var node := Get(t, key);
    if node == None { return before, None; }
    if !node.value.Integer? { return before + [fullKey], None; }
    return before, Some(node.value.value);
  }

  /** OptionalBoolean together with the assignment its callers make. */
  method OptionalBoolean(before: Errors, t: Entries, key: string, fullKey: string, current: bool)
    returns (errors: Errors, value: bool)
    ensures before <= errors && (errors == before <==> IsBoolean(Get(t, key)))
    ensures value == BooleanOr(Get(t, key), current)
  {
    var node := Get(t, key);
    if node == None { return before, current; }
    if !node.value.Boolean? { return before + [fullKey], current; }
    return before, node.value.flag;
  }

  method ParseWidth(before: Errors, t: Entries, current: int) returns (errors: Errors, width: int)
    ensures before <= errors && (errors == before <==> IsWidth(Get(t, "sidebar_width")))
    ensures IsWidth(Get(t, "sidebar_width")) ==> width == IntegerOr(Get(t, "sidebar_width"), current)
  {
    hide Get;
    width := current;
    var value;
    errors, value := OptionalInteger(before, t, "sidebar_width", "ui.sidebar_width");
    if value.Some? {
      if value.value < 126 || value.value > 400 {
        errors := errors + ["ui.sidebar_width"];
      } else {
        width := value.value;
      }
    }
  }

  method ParseTheme(before: Errors, t: Entries, current: Theme) returns (errors: Errors, theme: Theme)
    ensures before <= errors && (errors == before <==> IsTheme(Get(t, "theme")))
    ensures IsTheme(Get(t, "theme")) ==>
              theme == if Get(t, "theme").Some? && Get(t, "theme").value.String? then ThemeOf(Get(t, "theme").value.text)
                       else current
  {
    hide Get;
    theme := current;
    var text;
    errors, text := OptionalString(before, t, "theme", "ui.theme");
    if text.Some? {
      if text.value == "system" {
        theme := System;
      } else if text.value == "light" {
        theme := Light;
      } else if text.value == "dark" {
        theme := Dark;
      } else {
        errors := errors + ["ui.theme"];
      }
    }
  }

  method ParseUi(before: Errors, t: Entries) returns (errors: Errors, ui: UiConfig)
    ensures before <= errors && (errors == before <==> IsUi(t))
    ensures IsUi(t) ==> ui == UiOf(t)
  {
    hide Get, KeysWithin, IsWidth, IsTheme, IsBoolean, BooleanOr, IntegerOr, ThemeOf;
    ui := DEFAULT_UI;
    errors := CheckUnknownKeys(before, t, "ui", UI_KEYS);
    var text;
    errors, text := OptionalString(errors, t, "tabs_position", "ui.tabs_position");
    if text.Some? && text.value != "left" {
      errors := errors + ["ui.tabs_position"];
    }
    var width;
    errors, width := ParseWidth(errors, t, ui.sidebarWidth);
    ui := ui.(sidebarWidth := width);
    var flag;
    errors, flag := OptionalBoolean(errors, t, "sidebar_collapsed", "ui.sidebar_collapsed", ui.sidebarCollapsed);
    ui := ui.(sidebarCollapsed := flag);
    errors, flag := OptionalBoolean(errors, t, "show_tab_close_buttons", "ui.show_tab_close_buttons", ui.showTabCloseButtons);
    ui := ui.(showTabCloseButtons := flag);
    errors, flag := OptionalBoolean(errors, t, "top_bar_visible", "ui.top_bar_visible", ui.topBarVisible);
    ui := ui.(topBarVisible := flag);
    var theme;
    errors, theme := ParseTheme(errors, t, ui.theme);
    ui := ui.(theme := theme);
  }

  method ParseKeybinding(before: Errors, t: Entries, key: string, current: string)
    returns (errors: Errors, value: string)
    ensures before <= errors && (errors == before <==> IsShortcutNode(Get(t, key)))
    ensures value == ShortcutOr(Get(t, key), current)
  {
    hide Get, IsEnabled;
    value := current;
    var text;
    errors, text := OptionalString(before, t, key, "keybindings." + key);
    if text.Some? {
      var ok := IsShortcut(text.value);
      if !ok {
        errors := errors + ["keybindings." + key];
      } else {
        value := text.value;
      }
    }
  }

  /** conflict is the node whose line the conflict report asks for, if there is a conflict. Some(None) is
      the null pointer that the source then dereferences: nothing is promised about the errors. */
  method ParseKeybindings(before: Errors, t: Entries)
    returns (errors: Errors, keybindings: KeybindingsConfig, conflict: Option<Option<Node>>)
    ensures conflict == ConflictNode(t)
    ensures conflict != Some(None) ==> before <= errors && (errors == before <==> IsKeybindings(t))
    ensures IsKeybindings(t) ==> keybindings == KeybindingsOf(t)
  {
    hide Get, IsEnabled, KeysWithin;
    keybindings, conflict := DEFAULT_KEYBINDINGS, None;
    errors := CheckUnknownKeys(before, t, "keybindings", {"toggle_top_bar", "toggle_tab_bar"});
    var value;
    errors, value := ParseKeybinding(errors, t, "toggle_top_bar", keybindings.toggleTopBar);
    keybindings := keybindings.(toggleTopBar := value);
    errors, value := ParseKeybinding(errors, t, "toggle_tab_bar", keybindings.toggleTabBar);
    keybindings := keybindings.(toggleTabBar := value);
    if keybindings.toggleTopBar != "" && keybindings.toggleTopBar == keybindings.toggleTabBar {
      conflict := Some(Get(t, "toggle_tab_bar"));
      errors := errors + ["keybindings.toggle_tab_bar"];
    }
  }

  method ParseApp(before: Errors, t: Entries) returns (errors: Errors, app: AppConfig)
    ensures before <= errors && (errors == before <==> IsApp(t))
    ensures app == AppOf(t)
  {
    hide Get, KeysWithin;
    app := DEFAULT_APP;
    errors := CheckUnknownKeys(before, t, "app", {"default_environment", "restore_last_environment"});
    var text;
    errors, text := OptionalString(errors, t, "default_environment", "app.default_environment");
    if text.Some? {
      app := app.(defaultEnvironment := text.value);
    }
    var flag;
    errors, flag := OptionalBoolean(errors, t, "restore_last_environment", "app.restore_last_environment",
                                    app.restoreLastEnvironment);
    app := app.(restoreLastEnvironment := flag);
  }

  /** The loop over startup_urls. */
  method ParseStartupUrls(before: Errors, items: seq<Node>, prefix: string) returns (errors: Errors, urls: seq<string>)
    ensures before <= errors && (errors == before <==> AreStartupUrls(items))
    ensures AreStartupUrls(items) ==> urls == Texts(items)
  {
    hide IsStartupUrl;
    errors, urls := before, [];
    if |items| > MAX_STARTUP_URLS {
      errors := errors + [prefix + ".startup_urls"];
    }
    ghost var entry := errors;
    for i := 0 to |items|
      invariant before <= errors && entry <= errors && (errors == before ==> entry == before)
      invariant errors == entry <==> forall j :: 0 <= j < i ==> items[j].String? && IsStartupUrl(items[j].text)
      invariant errors == entry && |items| <= MAX_STARTUP_URLS ==> urls + Texts(items[i..]) == Texts(items)
    {
      if !items[i].String? {
        errors := errors + [prefix + ".startup_urls[]"];
        continue;
      }
      var ok := CheckStartupUrl(items[i].text);
      if !ok {
        errors := errors + [prefix + ".startup_urls[]"];
        continue;
      }
      if i < MAX_STARTUP_URLS {
        assert items[i..][1..] == items[i + 1..];
        urls := urls + [items[i].text];
      }
    }
  }

  method ParseEnvironment(before: Errors, name: string, t: Entries) returns (errors: Errors, environment: EnvironmentConfig)
    ensures before <= errors && (errors == before <==> IsEnvironment(t))
    ensures IsEnvironment(t) ==> environment == EnvironmentOf(name, t)
  {
    hide Get, IsHexColor, AreStartupUrls, KeysWithin, IsControlByte;
    var prefix := "environments." + name;
    errors := CheckUnknownKeys(before, t, prefix, {"data_directory", "accent_color", "startup_urls"});
    environment := EnvironmentConfig(name, "", None, []);
    var directory := Get(t, "data_directory");
    if directory == None {
      errors := errors + [prefix + ".data_directory"];
    } else if directory.value.String? {
      var control := HasControl(directory.value.text);
      if directory.value.text == "" || control {
        errors := errors + [prefix + ".data_directory"];
      } else {
        environment := environment.(dataDirectory := directory.value.text);
      }
    } else {
      errors := errors + [prefix + ".data_directory"];
    }
    var color;
    errors, color := OptionalString(errors, t, "accent_color", prefix + ".accent_color");
    if color.Some? {
      if !IsHexColor(color.value) {
        errors := errors + [prefix + ".accent_color"];
      } else {
        environment := environment.(accentColor := Some(color.value));
      }
    }
    var urls := Get(t, "startup_urls");
    if urls == None { return; }
    if !urls.value.Array? {
      errors := errors + [prefix + ".startup_urls"];
      return;
    }
    var texts;
    errors, texts := ParseStartupUrls(errors, urls.value.items, prefix);
    environment := environment.(startupUrls := texts);
  }

  lemma NoEnvironments(t: Entries)
    ensures [] + EnvironmentsOf(t[0..]) == EnvironmentsOf(t) && EnvironmentsOf(t[|t|..]) == []
  {
    assert t[0..] == t && t[|t|..] == [];
  }

  lemma RestOfEnvironments(t: Entries, i: nat, done: seq<EnvironmentConfig>)
    requires i < |t| && t[i].1.Table?
    ensures done + EnvironmentsOf(t[i..]) == (done + [EnvironmentOf(t[i].0, t[i].1.entries)]) + EnvironmentsOf(t[i + 1..])
  {
    hide EnvironmentOf;
    assert t[i..][1..] == t[i + 1..];
  }

  /** The loop over the environments table. */
  method ParseEnvironments(before: Errors, t: Entries) returns (errors: Errors, environments: seq<EnvironmentConfig>)
    ensures before <= errors && (errors == before <==> AreEnvironments(t))
    ensures AreEnvironments(t) ==> environments == EnvironmentsOf(t)
  {
    NoEnvironments(t);
    hide IsEnvironment, EnvironmentOf, IsEnvironmentName, EnvironmentsOf;
    errors, environments := before, [];
    if t == [] {
      errors := errors + ["environments"];
    }
    if |t| > MAX_ENVIRONMENTS {
      errors := errors + ["environments"];
    }
    ghost var entry := errors;
    for i := 0 to |t|
      invariant before <= errors && entry <= errors && (errors == before ==> entry == before)
      invariant errors == entry <==>
        forall j :: 0 <= j < i ==> IsEnvironmentName(t[j].0) && t[j].1.Table? && IsEnvironment(t[j].1.entries)
      invariant errors == entry && |t| <= MAX_ENVIRONMENTS ==> environments + EnvironmentsOf(t[i..]) == EnvironmentsOf(t)
    {
      var name := t[i].0;
      if !IsEnvironmentName(name) {
        errors := errors + ["environments." + name];
      }
      if !t[i].1.Table? {
        errors := errors + ["environments." + name];
        continue;
      }
      var environment;
      errors, environment := ParseEnvironment(errors, name, t[i].1.entries);
      if i < MAX_ENVIRONMENTS {
        RestOfEnvironments(t, i, environments);
        environments := environments + [environment];
      }
    }
  }

  method ParseVersion(before: Errors, root: Entries) returns (errors: Errors)
    ensures before <= errors && (errors == before <==> Get(root, "schema_version") == Some(Integer(1)))
  {
    hide Get;
    errors := before;
    var version := Get(root, "schema_version");
    if version == None {
      errors := errors + ["schema_version"];
    } else if version.value.Integer? {
      if version.value.value != 1 {
        errors := errors + ["schema_version"];
      }
    } else {
      errors := errors + ["schema_version"];
    }
  }

  /** The optional tables; an absent one keeps the defaults. conflict is that of the key bindings. */
  method ParseSections(before: Errors, root: Entries)
    returns (errors: Errors, ui: UiConfig, keybindings: KeybindingsConfig, app: AppConfig, conflict: Option<Option<Node>>)
    ensures conflict == ConflictNode(TableOr(Get(root, "keybindings")))
    ensures conflict != Some(None) ==> before <= errors && (errors == before <==> AreSections(root))
    ensures AreSections(root) ==>
              && ui == UiOf(TableOr(Get(root, "ui")))
              && keybindings == KeybindingsOf(TableOr(Get(root, "keybindings")))
              && app == AppOf(TableOr(Get(root, "app")))
  {
    EmptyTables();
    hide Get, IsUi, IsKeybindings, IsApp, UiOf, KeybindingsOf, AppOf, ConflictNode;
    ui, keybindings, app, conflict := DEFAULT_UI, DEFAULT_KEYBINDINGS, DEFAULT_APP, None;
    var table;
    errors, table := OptionalTable(before, root, "ui");
    if table.Some? {
      errors, ui := ParseUi(errors, table.value);
    }
    errors, table := OptionalTable(errors, root, "keybindings");
    if table.Some? {
      errors, keybindings, conflict := ParseKeybindings(errors, table.value);
    }
    errors, table := OptionalTable(errors, root, "app");
    if table.Some? {
      errors, app := ParseApp(errors, table.value);
    }
  }

  /* Which key each field comes from. */

  /** The table gives the value under the key, or leaves the key out and the value is the default. */
  predicate IsGiven(t: Entries, key: string, value: Node, default: Node) {
    Get(t, key) == Some(value) || (Get(t, key) == None && value == default)
  }

  function ThemeName(theme: Theme): string {
    match theme
    case System => "system"
    case Light => "light"
    case Dark => "dark"
  }

  predicate UiIsGiven(t: Entries, ui: UiConfig) {
    && IsGiven(t, "sidebar_width", Integer(ui.sidebarWidth), Integer(280))
    && IsGiven(t, "sidebar_collapsed", Boolean(ui.sidebarCollapsed), Boolean(false))
    && IsGiven(t, "show_tab_close_buttons", Boolean(ui.showTabCloseButtons), Boolean(true))
    && IsGiven(t, "top_bar_visible", Boolean(ui.topBarVisible), Boolean(true))
    && IsGiven(t, "theme", String(ThemeName(ui.theme)), String("system"))
  }

  predicate KeybindingsAreGiven(t: Entries, keybindings: KeybindingsConfig) {
    && IsGiven(t, "toggle_top_bar", String(keybindings.toggleTopBar), String("Alt+K"))
    && IsGiven(t, "toggle_tab_bar", String(keybindings.toggleTabBar), String("Alt+H"))
  }

  predicate AppIsGiven(t: Entries, app: AppConfig) {
    && IsGiven(t, "default_environment", String(app.defaultEnvironment), String("personal"))
    && IsGiven(t, "restore_last_environment", Boolean(app.restoreLastEnvironment), Boolean(false))
  }

  function TextNodes(texts: seq<string>): (items: seq<Node>)
    ensures |items| == |texts|
  {
    if texts == [] then [] else [String(texts[0])] + TextNodes(texts[1..])
  }

  /** The table gives the environment: its directory always, its color and its URLs if it has any. */
  predicate EnvironmentIsGiven(name: string, node: Node, e: EnvironmentConfig) {
    && e.name == name && node.Table?
    && Get(node.entries, "data_directory") == Some(String(e.dataDirectory))
    && Get(node.entries, "accent_color") == (if e.accentColor.Some? then Some(String(e.accentColor.value)) else None)
    && IsGiven(node.entries, "startup_urls", Array(TextNodes(e.startupUrls)), Array([]))
  }

  /** Every field of the configuration is what its key in the document says, or its default. */
  predicate IsGivenBy(root: Entries, c: ParsedConfig) {
    && UiIsGiven(TableOr(Get(root, "ui")), c.ui)
    && KeybindingsAreGiven(TableOr(Get(root, "keybindings")), c.keybindings)
    && AppIsGiven(TableOr(Get(root, "app")), c.app)
    && var environments := TableOr(Get(root, "environments"));
       && |c.environments| == |environments|
       && forall i :: 0 <= i < |environments| ==> EnvironmentIsGiven(environments[i].0, environments[i].1, c.environments[i])
  }

  lemma UiFields(t: Entries)
    requires IsUi(t)
    ensures UiIsGiven(t, UiOf(t))
  {
    hide Get, KeysWithin;
  }

  lemma KeybindingFields(t: Entries)
    requires IsKeybindings(t)
    ensures KeybindingsAreGiven(t, KeybindingsOf(t))
  {
    hide Get, KeysWithin, IsEnabled;
  }

  lemma AppFields(t: Entries)
    requires IsApp(t)
    ensures AppIsGiven(t, AppOf(t))
  {
    hide Get, KeysWithin;
  }

  lemma {:induction false} TextsBack(items: seq<Node>)
    requires forall i :: 0 <= i < |items| ==> items[i].String?
    ensures TextNodes(Texts(items)) == items
  {
    if items != [] {
      TextsBack(items[1..]);
      assert Texts(items) == [items[0].text] + Texts(items[1..]);
      assert Texts(items)[1..] == Texts(items[1..]);
    }
  }

  lemma EnvironmentFields(name: string, node: Node)
    requires node.Table? && IsEnvironment(node.entries)
    ensures EnvironmentIsGiven(name, node, EnvironmentOf(name, node.entries))
  {
    hide Get, KeysWithin, IsHexColor, IsStartupUrl, HasControlBytes;
    var urls := Get(node.entries, "startup_urls");
    if urls.Some? {
      TextsBack(urls.value.items);
    }
  }

  lemma {:induction false} EnvironmentsAt(t: Entries)
    requires forall i :: 0 <= i < |t| ==> t[i].1.Table?
    ensures |EnvironmentsOf(t)| == |t|
    ensures forall i :: 0 <= i < |t| ==> EnvironmentsOf(t)[i] == EnvironmentOf(t[i].0, t[i].1.entries)
  {
    hide EnvironmentOf;
    if t != [] {
      EnvironmentsAt(t[1..]);
      assert forall i :: 0 < i < |t| ==> EnvironmentsOf(t)[i] == EnvironmentsOf(t[1..])[i - 1];
    }
  }

  lemma ConfigIsGiven(root: Entries)
    requires Conforms(root)
    ensures IsGivenBy(root, ConfigOf(root))
  {
    hide Get, IsUi, IsKeybindings, IsApp, UiOf, KeybindingsOf, AppOf, KeysWithin, IsEnvironment, IsEnvironmentName,
         EnvironmentOf, UiIsGiven, KeybindingsAreGiven, AppIsGiven, EnvironmentIsGiven;
    UiFields(TableOr(Get(root, "ui")));
    KeybindingFields(TableOr(Get(root, "keybindings")));
    AppFields(TableOr(Get(root, "app")));
    var environments := TableOr(Get(root, "environments"));
    EnvironmentsAt(environments);
    forall i | 0 <= i < |environments|
      ensures var (name, node) := environments[i]; EnvironmentIsGiven(name, node, EnvironmentOf(name, node.entries))
    {
      EnvironmentFields(environments[i].0, environments[i].1);
    }
  }

  /** Undefined: the parser dereferences a null pointer. */
  datatype Parse = Accepted(config: ParsedConfig) | Rejected(errors: Errors) | Undefined

  /** ParseConfig, after the size check and the TOML parser: document is None on a syntax error. */
  method ParseConfig(size: nat, document: Option<Entries>) returns (r: Parse)
    ensures r.Accepted? <==> size <= MAX_CONFIG_BYTES && document.Some? && Conforms(document.value)
    ensures r.Accepted? ==> r.config == ConfigOf(document.value)
    // Every field comes from its own key, or is its default.
    ensures r.Accepted? ==> IsGivenBy(document.value, r.config)
    ensures r.Undefined? <==> size <= MAX_CONFIG_BYTES && document.Some?
                              && ConflictNode(TableOr(Get(document.value, "keybindings"))) == Some(None)
    ensures r.Rejected? ==> r.errors != []
  {
    hide Get, IsUi, IsApp, AreEnvironments, KeysWithin, UiOf, KeybindingsOf, EnvironmentsOf;
    hide AreSections, AppOf, ConflictNode, IsGivenBy;
    if size > MAX_CONFIG_BYTES { return Rejected(["<document>"]); }
    if document == None { return Rejected(["<toml>"]); }
    var root := document.value;
    var errors := CheckUnknownKeys([], root, "", {"schema_version", "ui", "keybindings", "app", "environments"});
    errors := ParseVersion(errors, root);
    var ui, keybindings, app, conflict;
    errors, ui, keybindings, app, conflict := ParseSections(errors, root);
    UndefinedIsNotConforming(root);
    if conflict == Some(None) { return Undefined; }
    var environments: seq<EnvironmentConfig> := [];
    var table;
    errors, table := OptionalTable(errors, root, "environments");
    if Get(root, "environments") == None {
      errors := errors + ["environments"];
    }
    if table.Some? {
      errors, environments := ParseEnvironments(errors, table.value);
    }
    var hasDefault := exists i :: 0 <= i < |environments| && environments[i].name == app.defaultEnvironment;
    if table.Some? && errors == [] {
      TablesOnly(table.value);
      DefaultIsNamed(table.value, app.defaultEnvironment);
    }
    if !hasDefault {
      errors := errors + ["app.default_environment"];
    }
    if errors != [] { return Rejected(errors); }
    ConfigIsGiven(root);
    return Accepted(ParsedConfig(ui, keybindings, app, environments));
  }

  lemma UndefinedIsNotConforming(root: Entries)
    ensures ConflictNode(TableOr(Get(root, "keybindings"))) == Some(None) ==> !AreSections(root)
  {
    hide Get, IsUi, IsApp, KeysWithin, IsEnabled;
  }

  /** The null pointer is read exactly if the table sets toggle_top_bar to the default of toggle_tab_bar
      and does not set toggle_tab_bar. */
  lemma AbsentNodeIsRead(t: Entries)
    ensures ConflictNode(t) == Some(None) <==>
            Get(t, "toggle_tab_bar") == None && Get(t, "toggle_top_bar") == Some(String("Alt+H"))
  {
    hide Get;
    assert Spelling([Alt], 'H') == "Alt+H";
    assert IsEnabled("Alt+H");
    hide IsEnabled;
    assert "Alt+K"[4] == 'K' && "Alt+H"[4] == 'H';
  }

  /** Such a table. */
  lemma AbsentNodeWitness()
    ensures ConflictNode([("toggle_top_bar", String("Alt+H"))]) == Some(None)
  {
    var t := [("toggle_top_bar", String("Alt+H"))];
    AbsentNodeIsRead(t);
    assert t[1..] == [] && Get(t[1..], "toggle_tab_bar") == None;
    assert "toggle_top_bar"[8] == 'o' && "toggle_tab_bar"[8] == 'a';
  }

  lemma TablesOnly(t: Entries)
    requires AreEnvironments(t)
    ensures forall i :: 0 <= i < |t| ==> t[i].1.Table?
  {
  }

  lemma EmptyTables()
    ensures IsUi([]) && UiOf([]) == DEFAULT_UI
    ensures IsKeybindings([]) && KeybindingsOf([]) == DEFAULT_KEYBINDINGS && ConflictNode([]) == None
    ensures IsApp([]) && AppOf([]) == DEFAULT_APP
  {
    assert Get([], "tabs_position") == None;
  }

  /** Environments keep the names and the order of the table. */
  lemma {:induction false} EnvironmentNames(t: Entries)
    requires forall i :: 0 <= i < |t| ==> t[i].1.Table?
    ensures |EnvironmentsOf(t)| == |t| && forall i :: 0 <= i < |t| ==> EnvironmentsOf(t)[i].name == t[i].0
  {
    if t != [] {
      EnvironmentNames(t[1..]);
    }
  }

  lemma DefaultIsNamed(t: Entries, name: string)
    requires forall i :: 0 <= i < |t| ==> t[i].1.Table?
    ensures (exists i :: 0 <= i < |EnvironmentsOf(t)| && EnvironmentsOf(t)[i].name == name) <==>
            (exists i :: 0 <= i < |t| && t[i].0 == name)
  {
    EnvironmentNames(t);
    if i :| 0 <= i < |t| && t[i].0 == name {
      assert EnvironmentsOf(t)[i].name == name;
    }
  }
}
