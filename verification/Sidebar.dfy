/** Applying the configured sidebar and theme once per change (mb/browser/runtime_ui_config.cc).

    The preference mb.runtime_ui.last_applied remembers, across processes, which configured values have
    been applied. Theme strings are kept as strings; a preference of the wrong type reads as absent.
    restore_depth is a mathematical integer. */
module Sidebar {

  import opened Config
  import opened Wrappers

  datatype Marker = Marker(width: Option<int>, collapsed: Option<bool>, theme: Option<string>)

  /** The State of a profile, as a value. */
  datatype Process =
    | Idle
    | Live(desired: UiConfig, widthChanged: bool, collapseChanged: bool, themeChanged: bool, initialized: bool, pending: bool,
           depth: int)

  /** A profile: its preferences, native ones included, and its State. */
  datatype Store = Store(marker: Marker, width: int, collapsed: bool, process: Process)

  /* What each function does to a profile. */

  function Initialized(s: Store, config: UiConfig): Store {
    if s.process.Live? then s
    else
      var widthChanged := s.marker.width != Some(config.sidebarWidth);
      var collapseChanged := s.marker.collapsed != Some(config.sidebarCollapsed);
      var themeChanged := s.marker.theme != Some(ThemeName(config.theme));
      s.(width := if widthChanged then config.sidebarWidth else s.width,
         collapsed := if collapseChanged then config.sidebarCollapsed else s.collapsed,
         process := Live(config, widthChanged, collapseChanged, themeChanged, false, false, 0))
  }

  function ThemeRecorded(s: Store): Store {
    if s.process.Live? && s.process.themeChanged then
      s.(marker := s.marker.(theme := Some(ThemeName(s.process.desired.theme))), process := s.process.(themeChanged := false))
    else s
  }

  /** RecordSidebarApplied. */
  function Recorded(s: Store): Store
    requires s.process.Live?
  {
    var p := s.process;
    if !p.initialized || p.depth != 0 then s
    else
      s.(marker := s.marker.(width := if p.widthChanged then Some(p.desired.sidebarWidth) else s.marker.width,
                             collapsed := if p.collapseChanged then Some(p.desired.sidebarCollapsed) else s.marker.collapsed),
         process := p.(widthChanged := false, collapseChanged := false))
  }

  /** Whether a window is overridden at all. */
  predicate IsOverridden(s: Store, restored: bool) {
    && s.process.Live?
    && !(s.process.initialized && s.process.depth == 0)
    && !(restored && s.process.depth == 0)
  }

  function Overridden(s: Store, restored: bool): Store {
    if IsOverridden(s, restored) then s.(process := s.process.(pending := true)) else s
  }

  /** The width that a window gets, given the one it would have had; likewise below. */
  function WindowWidth(s: Store, restored: bool, width: Option<int>): Option<int> {
    if IsOverridden(s, restored) && s.process.widthChanged then Some(s.process.desired.sidebarWidth) else width
  }

  function WindowCollapsed(s: Store, restored: bool, collapsed: Option<bool>): Option<bool> {
    if IsOverridden(s, restored) && s.process.collapseChanged then Some(s.process.desired.sidebarCollapsed) else collapsed
  }

  function DidInitialize(s: Store): Store {
    if s.process.Live? && s.process.pending then
      Recorded(s.(process := s.process.(pending := false, initialized := true)))
    else s
  }

  function Entered(s: Store): Store
    requires s.process.Live?
  {
    s.(process := s.process.(depth := s.process.depth + 1))
  }

  function Left(s: Store): Store
    requires s.process.Live?
  {
    Recorded(s.(process := s.process.(depth := s.process.depth - 1)))
  }

  /* The code. */

  class State {
    var desired: UiConfig
    var widthChanged: bool
    var collapseChanged: bool
    var themeChanged: bool
    var initialized: bool
    var pending: bool
    var depth: int

    constructor (desired: UiConfig)
      ensures View() == Live(desired, false, false, false, false, false, 0)
    {
      this.desired := desired;
      widthChanged, collapseChanged, themeChanged, initialized, pending, depth := false, false, false, false, false, 0;
    }

    function View(): Process
      reads this
    {
      Live(desired, widthChanged, collapseChanged, themeChanged, initialized, pending, depth)
    }
  }

  class Profile {
    var marker: Marker
    var width: int
    var collapsed: bool
    var state: State?

    constructor (marker: Marker, width: int, collapsed: bool)
      ensures View() == Store(marker, width, collapsed, Idle) && state == null
    {
      this.marker, this.width, this.collapsed, this.state := marker, width, collapsed, null;
    }

    function View(): Store
      reads this, state
    {
      Store(marker, width, collapsed, if state == null then Idle else state.View())
    }

    /** RecordSidebarApplied. */
    method RecordSidebarApplied()
      requires state != null
      modifies this`marker, state
      ensures View() == Recorded(old(View()))
    {
      if !state.initialized || state.depth != 0 { return; }
      if state.widthChanged {
        marker := marker.(width := Some(state.desired.sidebarWidth));
      }
      if state.collapseChanged {
        marker := marker.(collapsed := Some(state.desired.sidebarCollapsed));
      }
      state.widthChanged := false;
      state.collapseChanged := false;
    }
  }

  function Footprint(profile: Profile?): set<object>
    reads profile
  {
    if profile == null then {} else if profile.state == null then {profile} else {profile, profile.state}
  }

  method InitializeRuntimeUiConfig(profile: Profile?, config: UiConfig) returns (theme: Option<Theme>)
    modifies profile
    ensures profile != null ==> profile.View() == Initialized(old(profile.View()), config)
    ensures profile != null && old(profile.state) != null ==> profile.state == old(profile.state)
    ensures theme == if profile != null && old(profile.state) == null
                        && old(profile.marker.theme) != Some(ThemeName(config.theme))
                     then Some(config.theme) else None
  {
    if profile == null || profile.state != null { return None; }
    var state := new State(config);
    var previous := profile.marker;
    state.widthChanged := previous.width != Some(config.sidebarWidth);
    state.collapseChanged := previous.collapsed != Some(config.sidebarCollapsed);
    state.themeChanged := previous.theme.None? || previous.theme.value != ThemeName(config.theme);
    if state.widthChanged {
      profile.width := config.sidebarWidth;
    }
    if state.collapseChanged {
      profile.collapsed := config.sidebarCollapsed;
    }
    profile.state := state;
    return if state.themeChanged then Some(config.theme) else None;
  }

  method RecordRuntimeThemeApplied(profile: Profile?)
    modifies Footprint(profile)
    ensures profile != null ==> profile.View() == ThemeRecorded(old(profile.View())) && profile.state == old(profile.state)
  {
    if profile == null || profile.state == null || !profile.state.themeChanged { return; }
    profile.marker := profile.marker.(theme := Some(ThemeName(profile.state.desired.theme)));
    profile.state.themeChanged := false;
  }

  method OverrideInitialSidebarConfig(profile: Profile?, restored: bool, collapsed: Option<bool>, width: Option<int>)
    returns (collapsed': Option<bool>, width': Option<int>)
    modifies Footprint(profile)
    ensures profile != null ==>
              && profile.View() == Overridden(old(profile.View()), restored) && profile.state == old(profile.state)
              && collapsed' == WindowCollapsed(old(profile.View()), restored, collapsed)
              && width' == WindowWidth(old(profile.View()), restored, width)
    ensures profile == null ==> collapsed' == collapsed && width' == width
  {
    collapsed', width' := collapsed, width;
    if profile == null || profile.state == null { return; }
    var state := profile.state;
    if (state.initialized && state.depth == 0) || (restored && state.depth == 0) { return; }
    if state.collapseChanged {
      collapsed' := Some(state.desired.sidebarCollapsed);
    }
    if state.widthChanged {
      width' := Some(state.desired.sidebarWidth);
    }
    state.pending := true;
  }

  method DidInitializeSidebarConfig(profile: Profile?)
    modifies Footprint(profile)
    ensures profile != null ==> profile.View() == DidInitialize(old(profile.View())) && profile.state == old(profile.state)
  {
    if profile == null || profile.state == null || !profile.state.pending { return; }
    profile.state.pending := false;
    profile.state.initialized := true;
    profile.RecordSidebarApplied();
  }

  /** ScopedInitialUiConfigRestore. */
  class Scope {
    var profile: Profile?

    constructor (profile: Profile?, initial: bool)
      modifies Footprint(profile)
      ensures this.profile == if initial && profile != null && old(profile.state) != null then profile else null
      ensures this.profile != null ==> profile.state == old(profile.state) && profile.View() == Entered(old(profile.View()))
      ensures this.profile == null && profile != null ==> profile.View() == old(profile.View())
    {
      this.profile := null;
      new;
      if initial {
        if profile != null && profile.state != null {
          this.profile := profile;
          profile.state.depth := profile.state.depth + 1;
        }
      }
    }

    /** The destructor. Its two CHECKs are the precondition; a run meets it by ChecksHold below. */
    method Destroy()
      requires profile != null ==> profile.state != null && profile.state.depth > 0
      modifies Footprint(profile)
      ensures profile == old(profile)
      ensures profile != null ==> profile.state == old(profile.state) && profile.View() == Left(old(profile.View()))
    {
      if profile == null { return; }
      profile.state.depth := profile.state.depth - 1;
      profile.RecordSidebarApplied();
    }
  }

  /* Runs. A profile goes through any calls in any order, from any number of windows and scopes, and
     through any number of processes. */

  /** scopes: the live scope objects; true for those that hold the profile. */
  datatype World = World(store: Store, scopes: map<nat, bool>)

  datatype Event =
    | Initialize(config: UiConfig)
    | ThemeApplied
    | Override(restored: bool)
    | ControllerReady
    | Enter(id: nat, initial: bool)
    | Leave(id: nat)
    | UserResizes(width: int)
    | UserCollapses(collapsed: bool)
    | Restart

  predicate IsPossible(w: World, e: Event) {
    match e
    case Enter(id, _) => id !in w.scopes
    case Leave(id) => id in w.scopes && (w.scopes[id] ==> w.store.process.Live?)
    case _ => true
  }

  function Next(w: World, e: Event): World
    requires IsPossible(w, e)
  {
    match e
    case Initialize(config) => w.(store := Initialized(w.store, config))
    case ThemeApplied => w.(store := ThemeRecorded(w.store))
    case Override(restored) => w.(store := Overridden(w.store, restored))
    case ControllerReady => w.(store := DidInitialize(w.store))
    case Enter(id, initial) =>
      var active := initial && w.store.process.Live?;
      World(if active then Entered(w.store) else w.store, w.scopes[id := active])
    case Leave(id) => World(if w.scopes[id] then Left(w.store) else w.store, w.scopes - {id})
    case UserResizes(width) => w.(store := w.store.(width := width))
    case UserCollapses(collapsed) => w.(store := w.store.(collapsed := collapsed))
    case Restart => World(w.store.(process := Idle), map[])
  }

  ghost predicate IsRun(es: seq<Event>, ws: seq<World>) {
    && |ws| == |es| + 1
    && ws[0].store.process == Idle && ws[0].scopes == map[]
    && forall i :: 0 <= i < |es| ==> IsPossible(ws[i], es[i]) && ws[i + 1] == Next(ws[i], es[i])
  }

  function Active(scopes: map<nat, bool>): set<nat> {
    set id | id in scopes && scopes[id]
  }

  /** A flag is set exactly while the marker differs from the desired value; outside scopes an
      initialized sidebar has none set; the depth is the number of live scopes. */
  ghost predicate IsAgreed(s: Store, live: nat) {
    var p, marker := s.process, s.marker;
    && (p.Idle? ==> live == 0)
    && (p.Live? ==>
          && (p.widthChanged <==> marker.width != Some(p.desired.sidebarWidth))
          && (p.collapseChanged <==> marker.collapsed != Some(p.desired.sidebarCollapsed))
          && (p.themeChanged <==> marker.theme != Some(ThemeName(p.desired.theme)))
          && p.depth == live
          && (p.initialized && p.depth == 0 ==> !p.widthChanged && !p.collapseChanged))
  }

  ghost predicate IsConsistent(w: World) {
    IsAgreed(w.store, |Active(w.scopes)|)
  }

  /** What each function keeps. */
  lemma FunctionsAgree(s: Store, live: nat)
    requires IsAgreed(s, live)
    ensures forall config :: IsAgreed(Initialized(s, config), live)
    ensures IsAgreed(ThemeRecorded(s), live)
    ensures forall restored :: IsAgreed(Overridden(s, restored), live)
    ensures IsAgreed(DidInitialize(s), live)
  {
  }

  lemma ScopesAgree(s: Store, live: nat)
    requires IsAgreed(s, live) && s.process.Live?
    ensures IsAgreed(Entered(s), live + 1)
    ensures live > 0 ==> IsAgreed(Left(s), live - 1)
  {
  }

  lemma ActiveAfter(scopes: map<nat, bool>, id: nat, active: bool)
    ensures id !in scopes ==> Active(scopes[id := active]) == if active then Active(scopes) + {id} else Active(scopes)
    ensures id !in scopes ==> id !in Active(scopes)
    ensures id in scopes ==> Active(scopes - {id}) == Active(scopes) - {id}
  {
    if id !in scopes {
      assert Active(scopes[id := active]) == if active then Active(scopes) + {id} else Active(scopes);
    }
  }

  /** The CHECKs in the destructor hold. */
  lemma ChecksHold(w: World, id: nat)
    requires IsConsistent(w) && id in w.scopes && w.scopes[id]
    ensures w.store.process.Live? && w.store.process.depth > 0 && id in Active(w.scopes)
  {
    assert id in Active(w.scopes);
  }

  lemma NextIsConsistent(w: World, e: Event)
    requires IsConsistent(w) && IsPossible(w, e)
    ensures IsConsistent(Next(w, e))
  {
    var live := |Active(w.scopes)|;
    FunctionsAgree(w.store, live);
    if w.store.process.Live? {
      ScopesAgree(w.store, live);
    }
    match e {
      case Enter(id, initial) => ActiveAfter(w.scopes, id, initial && w.store.process.Live?);
      case Leave(id) =>
        ActiveAfter(w.scopes, id, true);
        if w.scopes[id] {
          ChecksHold(w, id);
        } else {
          assert Active(w.scopes) - {id} == Active(w.scopes);
        }
      case Restart => assert Active(map[]) == {};
      case _ =>
    }
    hide IsAgreed, Active, ThemeRecorded, Overridden, DidInitialize, Entered, Left;
  }

  lemma {:induction false} RunIsConsistent(es: seq<Event>, ws: seq<World>, i: nat)
    requires IsRun(es, ws) && i < |ws|
    ensures IsConsistent(ws[i])
  {
    if i > 0 {
      RunIsConsistent(es, ws, i - 1);
      NextIsConsistent(ws[i - 1], es[i - 1]);
    }
  }

  /* The commit. */

  predicate IsCommitted(s: Store) {
    s.process.Live? && s.process.initialized && s.process.depth == 0
  }

  ghost predicate IsOneProcess(es: seq<Event>, i: nat, j: nat)
    requires i <= j <= |es|
  {
    forall k :: i <= k < j ==> es[k] != Restart
  }

  /** Nothing is left to apply to the sidebar. */
  predicate IsSettled(s: Store, desired: UiConfig) {
    && s.process.Live? && s.process.desired == desired && !s.process.widthChanged && !s.process.collapseChanged
    && s.marker.width == Some(desired.sidebarWidth) && s.marker.collapsed == Some(desired.sidebarCollapsed)
  }

  lemma NextIsSettled(w: World, e: Event, desired: UiConfig)
    requires IsPossible(w, e) && e != Restart && IsSettled(w.store, desired)
    ensures IsSettled(Next(w, e).store, desired)
  {
  }

  /** There is one commit point: once it is reached, the marker holds the desired values, no window is
      changed any more, whatever scopes come and go, and the marker stays, until the process ends. */
  lemma {:induction false} CommitIsFinal(es: seq<Event>, ws: seq<World>, i: nat, j: nat)
    requires IsRun(es, ws) && i <= j < |ws| && IsCommitted(ws[i].store) && IsOneProcess(es, i, j)
    ensures IsSettled(ws[j].store, ws[i].store.process.desired)
    ensures forall restored, width :: WindowWidth(ws[j].store, restored, width) == width
    ensures forall restored, collapsed :: WindowCollapsed(ws[j].store, restored, collapsed) == collapsed
    decreases j
  {
    RunIsConsistent(es, ws, i);
    if i < j {
      CommitIsFinal(es, ws, i, j - 1);
      NextIsSettled(ws[j - 1], es[j - 1], ws[i].store.process.desired);
    }
  }

  /** Nothing has been committed since the process started from this marker. */
  predicate IsUntouched(s: Store, marker: Marker, desired: UiConfig) {
    && s.process.Live? && s.process.desired == desired && !IsCommitted(s)
    && s.marker.width == marker.width && s.marker.collapsed == marker.collapsed
  }

  lemma NextIsUntouched(w: World, e: Event, marker: Marker, desired: UiConfig)
    requires IsPossible(w, e) && e != Restart && IsUntouched(w.store, marker, desired) && !IsCommitted(Next(w, e).store)
    ensures IsUntouched(Next(w, e).store, marker, desired)
  {
  }

  /** A window that is not restored, or that is restored inside a restore scope. */
  predicate IsFresh(w: World, restored: bool) {
    !restored || Active(w.scopes) != {}
  }

  /** A changed field replaces what the window would have had. */
  function Delivered<T(==)>(applies: bool, applied: Option<T>, desired: T, given: Option<T>): Option<T> {
    if applies && applied != Some(desired) then Some(desired) else given
  }

  lemma UntouchedWindows(w: World, marker: Marker, desired: UiConfig)
    requires IsConsistent(w) && IsUntouched(w.store, marker, desired)
    ensures forall restored, width :: WindowWidth(w.store, restored, width)
              == Delivered(IsFresh(w, restored), marker.width, desired.sidebarWidth, width)
    ensures forall restored, collapsed :: WindowCollapsed(w.store, restored, collapsed)
              == Delivered(IsFresh(w, restored), marker.collapsed, desired.sidebarCollapsed, collapsed)
  {
  }

  lemma StartIsUntouched(w: World, config: UiConfig)
    requires w.store.process == Idle
    ensures IsUntouched(Next(w, Initialize(config)).store, w.store.marker, config)
  {
  }

  lemma {:induction false} UntouchedUntilCommit(es: seq<Event>, ws: seq<World>, i: nat, j: nat)
    requires IsRun(es, ws) && i < j < |ws| && ws[i].store.process == Idle && es[i].Initialize? && IsOneProcess(es, i, j)
    requires forall k :: i < k <= j ==> !IsCommitted(ws[k].store)
    ensures IsUntouched(ws[j].store, ws[i].store.marker, es[i].config)
    decreases j
  {
    hide Next, IsUntouched, IsCommitted;
    assert ws[j] == Next(ws[j - 1], es[j - 1]);
    if i + 1 < j {
      UntouchedUntilCommit(es, ws, i, j - 1);
      NextIsUntouched(ws[j - 1], es[j - 1], ws[i].store.marker, es[i].config);
    } else {
      StartIsUntouched(ws[i], es[i].config);
    }
  }

  /** Until then, the marker is the one that the process started from, and every fresh window and every
      window inside a restore scope receives every changed field. */
  lemma BeforeCommit(es: seq<Event>, ws: seq<World>, i: nat, j: nat)
    requires IsRun(es, ws) && i < j < |ws| && ws[i].store.process == Idle && es[i].Initialize? && IsOneProcess(es, i, j)
    requires forall k :: i < k <= j ==> !IsCommitted(ws[k].store)
    ensures IsUntouched(ws[j].store, ws[i].store.marker, es[i].config)
    ensures forall restored, width :: WindowWidth(ws[j].store, restored, width)
              == Delivered(IsFresh(ws[j], restored), ws[i].store.marker.width, es[i].config.sidebarWidth, width)
    ensures forall restored, collapsed :: WindowCollapsed(ws[j].store, restored, collapsed)
              == Delivered(IsFresh(ws[j], restored), ws[i].store.marker.collapsed, es[i].config.sidebarCollapsed, collapsed)
  {
    hide IsConsistent, IsUntouched, WindowWidth, WindowCollapsed, Delivered, IsFresh;
    RunIsConsistent(es, ws, j);
    UntouchedUntilCommit(es, ws, i, j);
    UntouchedWindows(ws[j], ws[i].store.marker, es[i].config);
  }

  /* What reaches the native preferences. */

  /** What an applied change leaves under a preference. */
  function Applied<T(==)>(applied: Option<T>, configured: T, native: T): T {
    if applied == Some(configured) then native else configured
  }

  lemma NextKeepsNative(w: World, e: Event)
    requires IsPossible(w, e) && (e.Initialize? ==> w.store.process.Live?)
    ensures !e.UserResizes? ==> Next(w, e).store.width == w.store.width
    ensures !e.UserCollapses? ==> Next(w, e).store.collapsed == w.store.collapsed
    ensures e != Restart && w.store.process.Live? ==> Next(w, e).store.process.Live?
  {
  }

  /** From the initialisation of a process on, and until the user changes it or the process ends, a native
      preference holds the configured value if the marker held another one, and what it held before
      otherwise. */
  lemma {:induction false} NativeIsApplied(es: seq<Event>, ws: seq<World>, i: nat, j: nat)
    requires IsRun(es, ws) && i < j < |ws| && ws[i].store.process == Idle && es[i].Initialize? && IsOneProcess(es, i, j)
    ensures ws[j].store.process.Live?
    ensures (forall k :: i < k < j ==> !es[k].UserResizes?) ==>
              ws[j].store.width == Applied(ws[i].store.marker.width, es[i].config.sidebarWidth, ws[i].store.width)
    ensures (forall k :: i < k < j ==> !es[k].UserCollapses?) ==>
              ws[j].store.collapsed == Applied(ws[i].store.marker.collapsed, es[i].config.sidebarCollapsed, ws[i].store.collapsed)
    decreases j
  {
    assert ws[j] == Next(ws[j - 1], es[j - 1]);
    if i + 1 < j {
      NativeIsApplied(es, ws, i, j - 1);
      hide Next;
      NextKeepsNative(ws[j - 1], es[j - 1]);
    }
  }

  /** Over any number of processes whose configuration keeps the same width, and while the user does not
      change it, the native width is the configured one, if it was where the marker said so at first. */
  lemma {:induction false} NativeIsConfigured(es: seq<Event>, ws: seq<World>, i: nat, j: nat)
    requires IsRun(es, ws) && i < j < |ws| && ws[i].store.process == Idle && es[i].Initialize?
    requires var s := ws[i].store; s.marker.width == Some(es[i].config.sidebarWidth) ==> s.width == es[i].config.sidebarWidth
    requires forall k :: i < k < j ==>
               !es[k].UserResizes? && (es[k].Initialize? ==> es[k].config.sidebarWidth == es[i].config.sidebarWidth)
    ensures ws[j].store.width == es[i].config.sidebarWidth
    decreases j
  {
    if i + 1 < j {
      NativeIsConfigured(es, ws, i, j - 1);
      NextWidth(ws[j - 1], es[j - 1]);
    } else {
      NextWidth(ws[i], es[i]);
    }
    assert ws[j] == Next(ws[j - 1], es[j - 1]);
    hide Next;
  }

  lemma NextWidth(w: World, e: Event)
    requires IsPossible(w, e)
    ensures Next(w, e).store.width ==
            match e
            case UserResizes(width) => width
            case Initialize(config) =>
              if w.store.process == Idle then Applied(w.store.marker.width, config.sidebarWidth, w.store.width)
              else w.store.width
            case _ => w.store.width
  {
  }

  /** A change that is not committed and then taken back is not undone: the marker still holds the old value,
      so the native preference keeps the one in between. */
  lemma RevertedChangeStays(a: UiConfig, b: UiConfig) returns (es: seq<Event>, ws: seq<World>)
    requires a.sidebarWidth != b.sidebarWidth
    ensures IsRun(es, ws) && |es| == 7 && es[6] == Initialize(a) && forall k :: 0 <= k < 7 ==> !es[k].UserResizes?
    ensures ws[7].store.process.Live? && ws[7].store.width == b.sidebarWidth
    ensures forall restored, given :: WindowWidth(ws[7].store, restored, given) == given
  {
    es := [Initialize(a), Override(false), ControllerReady, Restart, Initialize(b), Restart, Initialize(a)];
    var w0 := World(Store(Marker(None, None, None), a.sidebarWidth, false, Idle), map[]);
    var w1 := Next(w0, es[0]);
    var w2 := Next(w1, es[1]);
    var w3 := Next(w2, es[2]);
    var w4 := Next(w3, es[3]);
    var w5 := Next(w4, es[4]);
    var w6 := Next(w5, es[5]);
    ws := [w0, w1, w2, w3, w4, w5, w6, Next(w6, es[6])];
    assert w4.store.marker.width == Some(a.sidebarWidth);
  }

  /** What a process wants, and what it has got done. */
  lemma NextKeepsProgress(w: World, e: Event)
    requires IsPossible(w, e) && e != Restart && w.store.process.Live?
    ensures var p, q := w.store.process, Next(w, e).store.process;
            && q.Live? && q.desired == p.desired
            && (p.initialized ==> q.initialized) && (p.pending || p.initialized ==> q.pending || q.initialized)
            && (e == ControllerReady && (p.pending || p.initialized) ==> q.initialized)
            && (e == ThemeApplied || !p.themeChanged ==> !q.themeChanged)
            && (e != ThemeApplied ==> Next(w, e).store.marker.theme == w.store.marker.theme)
  {
  }

  lemma {:induction false} RunKeepsProgress(es: seq<Event>, ws: seq<World>, k: nat, j: nat)
    requires IsRun(es, ws) && k <= j < |ws| && ws[k].store.process.Live? && IsOneProcess(es, k, j)
    ensures var p, q := ws[k].store.process, ws[j].store.process;
            && q.Live? && q.desired == p.desired
            && (p.initialized ==> q.initialized) && (p.pending || p.initialized ==> q.pending || q.initialized)
            && (!p.themeChanged ==> !q.themeChanged)
            && ((forall l :: k <= l < j ==> es[l] != ThemeApplied) ==> ws[j].store.marker.theme == ws[k].store.marker.theme)
    decreases j
  {
    if k < j {
      RunKeepsProgress(es, ws, k, j - 1);
      NextKeepsProgress(ws[j - 1], es[j - 1]);
      hide Next;
    }
  }

  /** The commit is reached: once a fresh window, or one inside a restore scope, has been overridden and its
      controller is ready, the marker holds the desired values whenever no scope is live. */
  lemma FreshWindowCommits(es: seq<Event>, ws: seq<World>, k: nat, l: nat, j: nat)
    requires IsRun(es, ws) && k < l < j < |ws| && IsOneProcess(es, k, j) && ws[k].store.process.Live?
    requires es[k].Override? && IsFresh(ws[k], es[k].restored) && es[l] == ControllerReady
    ensures ws[j].store.process.Live? && ws[j].store.process.initialized
    ensures Active(ws[j].scopes) == {} ==> IsSettled(ws[j].store, ws[k].store.process.desired)
  {
    RunIsConsistent(es, ws, k);
    RunIsConsistent(es, ws, j);
    OverrideIsPending(ws[k], es[k].restored);
    hide Next, IsRun;
    RunAt(es, ws, k);
    RunAt(es, ws, l);
    RunKeepsProgress(es, ws, k, k + 1);
    RunKeepsProgress(es, ws, k + 1, l);
    NextKeepsProgress(ws[l], es[l]);
    RunKeepsProgress(es, ws, l, l + 1);
    RunKeepsProgress(es, ws, l + 1, j);
  }

  lemma RunAt(es: seq<Event>, ws: seq<World>, k: nat)
    requires IsRun(es, ws) && k < |es|
    ensures |ws| == |es| + 1 && IsPossible(ws[k], es[k]) && ws[k + 1] == Next(ws[k], es[k])
  {
  }

  lemma OverrideIsPending(w: World, restored: bool)
    requires IsConsistent(w) && w.store.process.Live? && IsFresh(w, restored)
    ensures var p := Next(w, Override(restored)).store.process; p.Live? && (p.pending || p.initialized)
  {
  }

  /** The configured theme is recorded once it has been applied, and not before. */
  lemma ThemeIsRecorded(es: seq<Event>, ws: seq<World>, i: nat, j: nat)
    requires IsRun(es, ws) && i < j < |ws| && ws[i].store.process == Idle && es[i].Initialize? && IsOneProcess(es, i, j)
    ensures ws[j].store.marker.theme ==
            if exists k :: i < k < j && es[k] == ThemeApplied then Some(ThemeName(es[i].config.theme))
            else ws[i].store.marker.theme
  {
    StartOfProcess(es, ws, i);
    hide Next, IsRun;
    if k :| i < k < j && es[k] == ThemeApplied {
      RunKeepsProgress(es, ws, i + 1, k);
      RunAt(es, ws, k);
      NextKeepsProgress(ws[k], es[k]);
      RunKeepsProgress(es, ws, k + 1, j);
      RunIsConsistent(es, ws, j);
    } else {
      RunKeepsProgress(es, ws, i + 1, j);
    }
  }

  lemma StartOfProcess(es: seq<Event>, ws: seq<World>, i: nat)
    requires IsRun(es, ws) && i < |es| && ws[i].store.process == Idle && es[i].Initialize?
    ensures |ws| == |es| + 1
    ensures var s := ws[i + 1].store;
            s.process.Live? && s.process.desired == es[i].config && s.marker == ws[i].store.marker
  {
  }

  /** The width has been applied, and any process at work wants it. */
  predicate IsApplied(s: Store, width: int) {
    s.marker.width == Some(width) && (s.process.Live? ==> s.process.desired.sidebarWidth == width && !s.process.widthChanged)
  }

  lemma NextIsApplied(w: World, e: Event, width: int)
    requires IsPossible(w, e) && IsApplied(w.store, width) && (e.Initialize? ==> e.config.sidebarWidth == width)
    ensures IsApplied(Next(w, e).store, width)
    ensures !e.UserResizes? ==> Next(w, e).store.width == w.store.width
  {
  }

  /** Over any number of processes whose configuration keeps the same width, once that width has been
      applied only the user changes it. */
  lemma {:induction false} OnlyTheUserResizes(es: seq<Event>, ws: seq<World>, i: nat, j: nat, width: int)
    requires IsRun(es, ws) && i <= j < |ws| && ws[i].store.marker.width == Some(width)
    requires ws[i].store.process.Live? ==> ws[i].store.process.desired.sidebarWidth == width
    requires forall k :: i <= k < j && es[k].Initialize? ==> es[k].config.sidebarWidth == width
    ensures IsApplied(ws[j].store, width)
    ensures forall restored, given :: WindowWidth(ws[j].store, restored, given) == given
    ensures (forall k :: i <= k < j ==> !es[k].UserResizes?) ==> ws[j].store.width == ws[i].store.width
    decreases j
  {
    RunIsConsistent(es, ws, i);
    if i < j {
      OnlyTheUserResizes(es, ws, i, j - 1, width);
      NextIsApplied(ws[j - 1], es[j - 1], width);
    }
  }

  /** A process that ends before its commit leaves the change pending: started again with the same
      configuration, the same fields are changed. */
  lemma UncommittedIsRetried(es: seq<Event>, ws: seq<World>, i: nat, j: nat)
    requires IsRun(es, ws) && i < j && j + 2 < |ws| && ws[i].store.process == Idle && es[i].Initialize? && IsOneProcess(es, i, j)
    requires forall k :: i < k <= j ==> !IsCommitted(ws[k].store)
    requires es[j] == Restart && es[j + 1] == es[i]
    ensures ws[i + 1].store.process.Live? && ws[j + 2].store.process.Live?
    ensures ws[j + 2].store.process.widthChanged == ws[i + 1].store.process.widthChanged
    ensures ws[j + 2].store.process.collapseChanged == ws[i + 1].store.process.collapseChanged
  {
    BeforeCommit(es, ws, i, j);
    assert ws[i + 1] == Next(ws[i], es[i]);
    assert ws[j + 1] == Next(ws[j], Restart);
    assert ws[j + 2] == Next(ws[j + 1], es[i]);
  }
}
