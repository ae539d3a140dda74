/** The configurations that the parser can return: for each of them there is a document that it accepts
    and reads back as that configuration. */
module ConfigDocument {

  import opened Wrappers
  import opened Text
  import opened Shortcuts
  import opened Config

  /** What a configuration may hold. */
  ghost predicate IsValid(c: ParsedConfig) {
    && 126 <= c.ui.sidebarWidth <= 400
    && IsValidShortcut(c.keybindings.toggleTopBar) && IsValidShortcut(c.keybindings.toggleTabBar)
    && (c.keybindings.toggleTopBar == c.keybindings.toggleTabBar ==> c.keybindings.toggleTopBar == "")
    && 1 <= |c.environments| <= 256
    && (forall e :: e in c.environments ==> IsValidEnvironment(e))
    && (exists e :: e in c.environments && e.name == c.app.defaultEnvironment)
  }

  ghost predicate IsValidShortcut(s: string) {
    s == "" || IsEnabled(s)
  }

  ghost predicate IsValidEnvironment(e: EnvironmentConfig) {
    && IsEnvironmentName(e.name)
    && e.dataDirectory != "" && !HasControlBytes(e.dataDirectory)
    && (e.accentColor.Some? ==> IsHexColor(e.accentColor.value))
    && |e.startupUrls| <= 100 && forall u :: u in e.startupUrls ==> IsStartupUrl(u)
  }

  /* The document that spells out every field. */

  function UiTable(ui: UiConfig): Entries {
    [("sidebar_width", Integer(ui.sidebarWidth)), ("sidebar_collapsed", Boolean(ui.sidebarCollapsed)),
     ("show_tab_close_buttons", Boolean(ui.showTabCloseButtons)), ("top_bar_visible", Boolean(ui.topBarVisible)),
     ("theme", String(ThemeName(ui.theme)))]
  }

  function KeybindingsTable(k: KeybindingsConfig): Entries {
    [("toggle_top_bar", String(k.toggleTopBar)), ("toggle_tab_bar", String(k.toggleTabBar))]
  }

  function AppTable(app: AppConfig): Entries {
    [("default_environment", String(app.defaultEnvironment)), ("restore_last_environment", Boolean(app.restoreLastEnvironment))]
  }

  function EnvironmentTable(e: EnvironmentConfig): Entries {
    [("data_directory", String(e.dataDirectory)), ("startup_urls", Array(TextNodes(e.startupUrls)))]
    + if e.accentColor.Some? then [("accent_color", String(e.accentColor.value))] else []
  }

  function EnvironmentsTable(es: seq<EnvironmentConfig>): Entries {
    if es == [] then [] else [(es[0].name, Table(EnvironmentTable(es[0])))] + EnvironmentsTable(es[1..])
  }

  function Document(c: ParsedConfig): Entries {
    [("schema_version", Integer(1)), ("ui", Table(UiTable(c.ui))), ("keybindings", Table(KeybindingsTable(c.keybindings))),
     ("app", Table(AppTable(c.app))), ("environments", Table(EnvironmentsTable(c.environments)))]
  }

  /* Looking keys up. */

  /** The entry at i is the first of its key. */
  lemma {:induction false} GetAt(t: Entries, i: nat)
    requires i < |t| && forall j :: 0 <= j < i ==> t[j].0 != t[i].0
    ensures Get(t, t[i].0) == Some(t[i].1)
  {
    if i > 0 {
      assert t[1..][i - 1] == t[i];
      assert forall j :: 0 <= j < i - 1 ==> t[1..][j] == t[j + 1];
      GetAt(t[1..], i - 1);
    }
  }

  lemma {:induction false} GetNone(t: Entries, key: string)
    requires forall i :: 0 <= i < |t| ==> t[i].0 != key
    ensures Get(t, key) == None
  {
    if t != [] {
      assert forall i :: 0 <= i < |t| - 1 ==> t[1..][i] == t[i + 1];
      GetNone(t[1..], key);
    }
  }

  lemma UiBack(ui: UiConfig)
    requires 126 <= ui.sidebarWidth <= 400
    ensures IsUi(UiTable(ui)) && UiOf(UiTable(ui)) == ui
  {
    var t := UiTable(ui);
    assert |"sidebar_width"| == 13 && |"sidebar_collapsed"| == 17 && |"show_tab_close_buttons"| == 22
           && |"top_bar_visible"| == 15 && |"theme"| == 5;
    assert "tabs_position"[0] == 't' && "sidebar_width"[0] == 's';
    hide Get;
    GetAt(t, 0);
    GetAt(t, 1);
    GetAt(t, 2);
    GetAt(t, 3);
    GetAt(t, 4);
    GetNone(t, "tabs_position");
    assert KeysWithin(t, UI_KEYS);
  }

  lemma KeybindingsBack(k: KeybindingsConfig)
    requires IsValidShortcut(k.toggleTopBar) && IsValidShortcut(k.toggleTabBar)
    requires k.toggleTopBar == k.toggleTabBar ==> k.toggleTopBar == ""
    ensures IsKeybindings(KeybindingsTable(k)) && KeybindingsOf(KeybindingsTable(k)) == k
  {
    var t := KeybindingsTable(k);
    assert "toggle_top_bar"[8] == 'o' && "toggle_tab_bar"[8] == 'a';
    hide Get, IsEnabled;
    GetAt(t, 0);
    GetAt(t, 1);
  }

  lemma AppBack(app: AppConfig)
    ensures IsApp(AppTable(app)) && AppOf(AppTable(app)) == app
  {
    var t := AppTable(app);
    assert "default_environment"[0] == 'd' && "restore_last_environment"[0] == 'r';
    hide Get;
    GetAt(t, 0);
    GetAt(t, 1);
  }

  lemma {:induction false} TextsOfNodes(texts: seq<string>)
    ensures Texts(TextNodes(texts)) == texts
    ensures forall i :: 0 <= i < |texts| ==> TextNodes(texts)[i] == String(texts[i])
  {
    if texts != [] {
      TextsOfNodes(texts[1..]);
      assert TextNodes(texts)[1..] == TextNodes(texts[1..]);
    }
  }

  lemma EnvironmentBack(e: EnvironmentConfig)
    requires IsValidEnvironment(e)
    ensures IsEnvironment(EnvironmentTable(e)) && EnvironmentOf(e.name, EnvironmentTable(e)) == e
  {
    var t := EnvironmentTable(e);
    assert "data_directory"[0] == 'd' && "startup_urls"[0] == 's' && "accent_color"[0] == 'a';
    TextsOfNodes(e.startupUrls);
    hide Get, HasControlBytes, IsHexColor, IsStartupUrl, IsEnvironmentName;
    GetAt(t, 0);
    GetAt(t, 1);
    if e.accentColor.Some? {
      GetAt(t, 2);
    } else {
      GetNone(t, "accent_color");
    }
    assert AreStartupUrls(TextNodes(e.startupUrls));
    assert KeysWithin(t, {"data_directory", "accent_color", "startup_urls"});
  }

  lemma {:induction false} EnvironmentsBack(es: seq<EnvironmentConfig>)
    requires forall e :: e in es ==> IsValidEnvironment(e)
    ensures var t := EnvironmentsTable(es);
            && |t| == |es|
            && (forall i :: 0 <= i < |t| ==>
                  t[i].0 == es[i].name && IsEnvironmentName(t[i].0) && t[i].1.Table? && IsEnvironment(t[i].1.entries))
            && EnvironmentsOf(t) == es
  {
    hide IsValidEnvironment, IsEnvironment, EnvironmentOf, EnvironmentTable, IsEnvironmentName;
    if es != [] {
      var t := EnvironmentsTable(es);
      assert es[0] in es && forall e :: e in es[1..] ==> e in es;
      EnvironmentsBack(es[1..]);
      ValidName(es[0]);
      EnvironmentBack(es[0]);
      assert t[1..] == EnvironmentsTable(es[1..]);
      assert es == [es[0]] + es[1..];
    }
  }

  lemma ValidName(e: EnvironmentConfig)
    requires IsValidEnvironment(e)
    ensures IsEnvironmentName(e.name)
  {
  }

  lemma DocumentKeys(c: ParsedConfig)
    ensures var root := Document(c);
            && KeysWithin(root, {"schema_version", "ui", "keybindings", "app", "environments"})
            && Get(root, "schema_version") == Some(Integer(1))
            && Get(root, "ui") == Some(Table(UiTable(c.ui)))
            && Get(root, "keybindings") == Some(Table(KeybindingsTable(c.keybindings)))
            && Get(root, "app") == Some(Table(AppTable(c.app)))
            && Get(root, "environments") == Some(Table(EnvironmentsTable(c.environments)))
  {
    assert "schema_version"[0] == 's' && "ui"[0] == 'u' && "keybindings"[0] == 'k' && "app"[0] == 'a' && "environments"[0] == 'e';
    var root := Document(c);
    hide Get, UiTable, KeybindingsTable, AppTable, EnvironmentsTable;
    GetAt(root, 0);
    GetAt(root, 1);
    GetAt(root, 2);
    GetAt(root, 3);
    GetAt(root, 4);
  }

  /** Every valid configuration is accepted, from the document that spells it out, and read back. */
  lemma ReadsBack(c: ParsedConfig)
    requires IsValid(c)
    ensures Conforms(Document(c)) && ConfigOf(Document(c)) == c
  {
    hide Get, IsUi, IsKeybindings, IsApp, UiOf, KeybindingsOf, AppOf, IsEnvironment, IsEnvironmentName, EnvironmentsOf,
         UiTable, KeybindingsTable, AppTable, EnvironmentsTable, Document, KeysWithin, IsValidEnvironment, IsValidShortcut;
    DocumentKeys(c);
    UiBack(c.ui);
    KeybindingsBack(c.keybindings);
    AppBack(c.app);
    EnvironmentsBack(c.environments);
    var t := EnvironmentsTable(c.environments);
    var e :| e in c.environments && e.name == c.app.defaultEnvironment;
    var i :| 0 <= i < |c.environments| && c.environments[i] == e;
    assert t[i].0 == c.app.defaultEnvironment;
  }

  /** And nothing else is ever returned. */
  lemma AcceptedIsValid(root: Entries)
    requires Conforms(root)
    ensures IsValid(ConfigOf(root))
  {
    hide Get, IsUi, IsKeybindings, IsApp, UiOf, KeybindingsOf, AppOf, IsEnvironment, IsEnvironmentName, EnvironmentsOf,
         EnvironmentOf, KeysWithin, IsValidEnvironment, IsValidShortcut;
    UiIsValid(TableOr(Get(root, "ui")));
    KeybindingsAreValid(TableOr(Get(root, "keybindings")));
    var t := Get(root, "environments").value.entries;
    var c := ConfigOf(root);
    EnvironmentsAt(t);
    forall i | 0 <= i < |t|
      ensures IsValidEnvironment(c.environments[i]) && c.environments[i].name == t[i].0
    {
      EnvironmentIsValid(t[i].0, t[i].1.entries);
    }
    var i :| 0 <= i < |t| && t[i].0 == c.app.defaultEnvironment;
    assert c.environments[i] in c.environments;
  }

  lemma UiIsValid(t: Entries)
    requires IsUi(t)
    ensures 126 <= UiOf(t).sidebarWidth <= 400
  {
    hide Get, KeysWithin;
  }

  lemma KeybindingsAreValid(t: Entries)
    requires IsKeybindings(t)
    ensures var k := KeybindingsOf(t);
            && IsValidShortcut(k.toggleTopBar) && IsValidShortcut(k.toggleTabBar)
            && (k.toggleTopBar == k.toggleTabBar ==> k.toggleTopBar == "")
  {
    hide Get, KeysWithin;
    DefaultIsEnabled('K');
    DefaultIsEnabled('H');
    assert "Alt+" + ['K'] == "Alt+K" && "Alt+" + ['H'] == "Alt+H";
    hide IsEnabled;
  }

  lemma DefaultIsEnabled(key: char)
    requires IsKey(key)
    ensures IsEnabled("Alt+" + [key])
  {
    assert Spelling([Alt], key) == "Alt" + "+" + [key];
    assert "Alt" + "+" + [key] == "Alt+" + [key];
  }

  lemma EnvironmentIsValid(name: string, t: Entries)
    requires IsEnvironmentName(name) && IsEnvironment(t)
    ensures IsValidEnvironment(EnvironmentOf(name, t)) && EnvironmentOf(name, t).name == name
  {
    hide Get, KeysWithin, IsEnvironmentName, IsHexColor, IsStartupUrl, HasControlBytes;
    if Get(t, "startup_urls").Some? {
      TextsAt(Get(t, "startup_urls").value.items);
    }
  }

  lemma {:induction false} TextsAt(items: seq<Node>)
    requires forall i :: 0 <= i < |items| ==> items[i].String?
    ensures |Texts(items)| == |items| && forall i :: 0 <= i < |items| ==> Texts(items)[i] == items[i].text
  {
    if items != [] {
      TextsAt(items[1..]);
      assert Texts(items) == [items[0].text] + Texts(items[1..]);
    }
  }
}
