/** The directory of generated branding inputs and its marker (mb/tools/branding.py).

    A directory maps names to entries. Replacing one file, removing one and creating the directory
    are single steps, and a run may stop between any two of them. */
module Branding {

  import opened Maps
  import opened Wrappers

  const MANAGED_FILE := ".branding-managed.json"

  const STATIC_OUTPUTS: set<string> :=
    {"BRANDING", "branding.h", "branding.gni", "branding_strings.grdp", "packaging.json", "icon.svg"}

  const V1_STATIC_OUTPUTS: set<string> := STATIC_OUTPUTS - {"BRANDING"}

  /** What a file holds. Marker is JSON with exactly the keys of a marker and a list of strings as
      outputs; anything else is Text. */
  datatype Data = Text(text: string) | Marker(version: int, outputs: seq<string>)

  /** Irregular is a symbolic link, dangling or not, a directory, or any other kind of file. */
  datatype Entry = Regular(data: Data) | Irregular

  type Entries = map<string, Entry>

  datatype Place = Missing | NotDirectory | Directory(entries: Entries)

  predicate IsDesktopName(name: string) {
    |name| >= 8 && name[|name| - 8..] == ".desktop"
  }

  /** Path(name).name == name. */
  predicate IsPlainName(name: string) {
    '/' !in name && name != "."
  }

  function SetOf(s: seq<string>): set<string> {
    set n | n in s
  }

  predicate IsDistinct(s: seq<string>) {
    forall i, j :: 0 <= i < j < |s| ==> s[i] != s[j]
  }

  /* The specification. */

  /** The list names every fixed output and one desktop file, once each. */
  predicate IsNaming(names: seq<string>, fixed: set<string>) {
    && IsDistinct(names)
    && exists desktop :: desktop in names && desktop !in fixed && IsDesktopName(desktop) && IsPlainName(desktop)
                         && SetOf(names) == fixed + {desktop}
  }

  function FixedOutputs(version: int): set<string> {
    if version == 1 then V1_STATIC_OUTPUTS else STATIC_OUTPUTS
  }

  /** A marker of schema 1 or 2. */
  predicate IsMarker(data: Data) {
    data.Marker? && data.version in {1, 2} && IsNaming(data.outputs, FixedOutputs(data.version))
  }

  /** The names that a nonempty directory's marker owns. */
  function Owned(entries: Entries): set<string> {
    if MANAGED_FILE in entries && entries[MANAGED_FILE].Regular? && entries[MANAGED_FILE].data.Marker?
    then SetOf(entries[MANAGED_FILE].data.outputs) else {}
  }

  predicate IsFileOrAbsent(entries: Entries, name: string) {
    name in entries ==> entries[name].Regular?
  }

  /** check_managed_directory accepts: an empty directory, or one with a marker in which no planned or
      owned name is irregular and no planned name that it does not own exists. */
  predicate IsAccepted(entries: Entries, planned: set<string>) {
    entries == map[]
    || (&& MANAGED_FILE in entries && entries[MANAGED_FILE].Regular? && IsMarker(entries[MANAGED_FILE].data)
        && (forall n :: n in planned ==> IsFileOrAbsent(entries, n) && (n !in Owned(entries) ==> n !in entries))
        && (forall n :: n in Owned(entries) - planned ==> IsFileOrAbsent(entries, n)))
  }

  predicate IsPlaceAccepted(place: Place, planned: set<string>) {
    match place
    case Missing => true
    case NotDirectory => false
    case Directory(entries) => IsAccepted(entries, planned)
  }

  function EntriesOf(place: Place): Entries {
    if place.Directory? then place.entries else map[]
  }

  /** What render returns: the static outputs and one desktop file. */
  ghost predicate AreOutputs(outputs: map<string, string>) {
    exists desktop :: IsDesktopName(desktop) && IsPlainName(desktop) && desktop !in STATIC_OUTPUTS
                      && outputs.Keys == STATIC_OUTPUTS + {desktop}
  }

  /** order lists the outputs, once each. */
  predicate IsOrderOf(order: seq<string>, outputs: map<string, string>) {
    IsDistinct(order) && SetOf(order) == outputs.Keys
  }

  /** What a finished run leaves: the old contents, less the owned files that are not planned, plus the
      outputs and a marker for them. */
  function Final(entries: Entries, outputs: map<string, string>, order: seq<string>): Entries {
    map n | n in (entries.Keys - (Owned(entries) - outputs.Keys)) + outputs.Keys + {MANAGED_FILE} ::
      if n == MANAGED_FILE then Regular(Marker(2, order))
      else if n in outputs then Regular(Text(outputs[n]))
      else entries[n]
  }

  /** What a run that stopped before its last step may leave: the marker is the old one, outputs are old or new, and
      owned files that are not planned are old or gone. */
  ghost predicate IsPartial(entries: Entries, entries': Entries, outputs: map<string, string>) {
    forall n ::
      || IsKept(entries, entries', n)
      || (n in outputs && n in entries' && entries'[n] == Regular(Text(outputs[n])))
      || (n in Owned(entries) - outputs.Keys && n !in entries')
  }

  /* The generator. */

  datatype Outcome = Refused | Stopped | Generated

  class Output {
    var place: Place

    constructor (place: Place)
      ensures this.place == place
    {
      this.place := place;
    }

    /** check_managed_directory; the result is the owned names, or None where it raises. */
    method CheckManagedDirectory(planned: set<string>) returns (previous: Option<set<string>>)
      ensures previous == if IsPlaceAccepted(place, planned) then Some(Owned(EntriesOf(place))) else None
    {
      if place == Missing { return Some({}); }
      if place == NotDirectory { return None; }
      var entries := place.entries;
      if entries == map[] { return Some({}); }
      if MANAGED_FILE !in entries || entries[MANAGED_FILE] == Irregular { return None; }
      var managed := entries[MANAGED_FILE].data;
      var valid := CheckMarker(managed);
      if !valid { return None; }
      hide IsMarker;
      var owned := Owned(entries);
      hide Owned;
      var ok := CheckPlanned(entries, owned, planned);
      if !ok { return None; }
      ok := CheckStale(entries, owned - planned);
      if !ok { return None; }
      return Some(owned);
    }

    /** generate, once the manifest is loaded. inside: the directory is in the Chromium checkout;
        mayStop: the run may stop halfway. */
    method Generate(outputs: map<string, string>, order: seq<string>, inside: bool, mayStop: bool) returns (outcome: Outcome)
      requires AreOutputs(outputs) && IsOrderOf(order, outputs)
      modifies this
      ensures outcome == Refused <==> inside || !IsPlaceAccepted(old(place), outputs.Keys)
      ensures outcome == Refused ==> place == old(place)
      ensures outcome == Generated ==> place == Directory(Final(EntriesOf(old(place)), outputs, order))
      // Name by name: every output holds its text, the marker lists the outputs, what the old marker owned and
      // is no longer planned is gone, and everything else is as it was.
      ensures outcome == Generated ==>
                var before, after := EntriesOf(old(place)), EntriesOf(place);
                && (forall n :: n in outputs ==> n in after && after[n] == Regular(Text(outputs[n])))
                && MANAGED_FILE in after && after[MANAGED_FILE] == Regular(Marker(2, order))
                && (forall n :: n !in outputs && n != MANAGED_FILE ==>
                      if n in Owned(before) then n !in after else IsKept(before, after, n))
      ensures outcome == Stopped ==> mayStop
      ensures outcome == Stopped ==>
                place == old(place) || (place.Directory? && IsPartial(EntriesOf(old(place)), place.entries, outputs))
    {
      hide IsOrderOf, AreOutputs, IsPlaceAccepted, IsAccepted, IsPartial, Final, Owned;
      if inside { return Refused; }
      var previous := CheckManagedDirectory(outputs.Keys);
      if previous == None { return Refused; }
      var alive := *;
      if mayStop && !alive { return Stopped; }
      if place == Missing {
        place := Directory(map[]);
      }
      AcceptedIsDirectory(old(place), outputs.Keys);
      ghost var before := place.entries;
      var written := WriteOutputs(outputs, order, mayStop);
      ghost var middle := place.entries;
      if !written {
        WrittenIsPartial(before, middle, outputs, order, false);
        return Stopped;
      }
      var removed := RemoveStale(previous.value - outputs.Keys, mayStop);
      RemovedIsPartial(before, middle, place.entries, outputs, order, removed);
      alive := *;
      if mayStop && !(removed && alive) { return Stopped; }
      RemovedIsFinal(before, middle, place.entries, outputs, order);
      FinalAt(before, outputs, order);
      place := Directory(place.entries[MANAGED_FILE := Regular(Marker(2, order))]);
      return Generated;
    }

    method WriteOutputs(outputs: map<string, string>, order: seq<string>, mayStop: bool) returns (finished: bool)
      requires place.Directory? && IsOrderOf(order, outputs)
      modifies this
      ensures place.Directory? && IsWritten(old(place.entries), place.entries, outputs, finished) && (finished || mayStop)
    {
      var i := 0;
      while i < |order|
        invariant i <= |order| && place.Directory?
        invariant forall n :: n !in order[..i] ==> IsKept(old(place.entries), place.entries, n)
        invariant forall n :: n in order[..i] ==>
                    n in outputs && n in place.entries && place.entries[n] == Regular(Text(outputs[n]))
      {
        var alive := *;
        if mayStop && !alive { return false; }
        assert order[i] in SetOf(order) && order[..i + 1] == order[..i] + [order[i]];
        place := Directory(place.entries[order[i] := Regular(Text(outputs[order[i]]))]);
        i := i + 1;
      }
      assert order[..i] == order;
      assert forall n :: n in outputs ==> n in SetOf(order);
      return true;
    }

    method RemoveStale(names: set<string>, mayStop: bool) returns (finished: bool)
      requires place.Directory?
      modifies this
      ensures place.Directory? && IsRemoved(old(place.entries), place.entries, names, finished) && (finished || mayStop)
    {
      var todo := names;
      while todo != {}
        invariant todo <= names && place.Directory?
        invariant forall n :: n !in names || n in todo ==> IsKept(old(place.entries), place.entries, n)
        invariant forall n :: n in names - todo ==> n !in place.entries
        decreases |todo|
      {
        var alive := *;
        if mayStop && !alive { return false; }
        var name :| name in todo;
        todo := todo - {name};
        if name in place.entries {
          place := Directory(place.entries - {name});
        }
      }
      return true;
    }
  }

  /** Some of the outputs have been written, all of them if finished. */
  ghost predicate IsWritten(entries: Entries, entries': Entries, outputs: map<string, string>, finished: bool) {
    forall n ::
      if n in outputs
      then (n in entries' && entries'[n] == Regular(Text(outputs[n]))) || (!finished && IsKept(entries, entries', n))
      else IsKept(entries, entries', n)
  }

  ghost predicate IsRemoved(entries: Entries, entries': Entries, names: set<string>, finished: bool) {
    forall n ::
      if n in names then n !in entries' || (!finished && IsKept(entries, entries', n)) else IsKept(entries, entries', n)
  }

  lemma AcceptedIsDirectory(place: Place, planned: set<string>)
    requires IsPlaceAccepted(place, planned)
    ensures place != NotDirectory
  {
  }

  lemma WrittenIsPartial(before: Entries, after: Entries, outputs: map<string, string>, order: seq<string>, finished: bool)
    requires IsWritten(before, after, outputs, finished)
    ensures IsPartial(before, after, outputs)
  {
    hide Owned;
  }

  lemma RemovedIsPartial(before: Entries, middle: Entries, after: Entries, outputs: map<string, string>, order: seq<string>,
                         finished: bool)
    requires IsWritten(before, middle, outputs, true)
    requires IsRemoved(middle, after, Owned(before) - outputs.Keys, finished)
    ensures IsPartial(before, after, outputs)
  {
    hide Owned;
  }

  lemma RemovedIsFinal(before: Entries, middle: Entries, after: Entries, outputs: map<string, string>, order: seq<string>)
    requires IsWritten(before, middle, outputs, true) && AreOutputs(outputs)
    requires IsRemoved(middle, after, Owned(before) - outputs.Keys, true)
    ensures after[MANAGED_FILE := Regular(Marker(2, order))] == Final(before, outputs, order)
  {
    hide Owned, AreOutputs;
    var f, g := after[MANAGED_FILE := Regular(Marker(2, order))], Final(before, outputs, order);
    forall n
      ensures n in f <==> n in g
      ensures n in f ==> f[n] == g[n]
    {
    }
  }

  lemma FinalAt(entries: Entries, outputs: map<string, string>, order: seq<string>)
    requires AreOutputs(outputs)
    ensures var after := Final(entries, outputs, order);
            && (forall n :: n in outputs ==> n in after && after[n] == Regular(Text(outputs[n])))
            && MANAGED_FILE in after && after[MANAGED_FILE] == Regular(Marker(2, order))
            && (forall n :: n !in outputs && n != MANAGED_FILE ==>
                  if n in Owned(entries) then n !in after else IsKept(entries, after, n))
  {
    NamesOfOutputs(outputs);
    hide Owned, AreOutputs;
  }

  /** The loop of check_managed_directory over the planned names. */
  method CheckPlanned(entries: Entries, owned: set<string>, planned: set<string>) returns (ok: bool)
    ensures ok <==> forall n :: n in planned ==> IsFileOrAbsent(entries, n) && (n !in owned ==> n !in entries)
  {
    var todo := planned;
    while todo != {}
      invariant todo <= planned
      invariant forall n :: n in planned - todo ==> IsFileOrAbsent(entries, n) && (n !in owned ==> n !in entries)
      decreases |todo|
    {
      var name :| name in todo;
      todo := todo - {name};
      if name in entries && entries[name] == Irregular { return false; }
      if name !in owned && name in entries { return false; }
    }
    return true;
  }

  /** Its loop over the owned names that are no longer planned. */
  method CheckStale(entries: Entries, stale: set<string>) returns (ok: bool)
    ensures ok <==> forall n :: n in stale ==> IsFileOrAbsent(entries, n)
  {
    var todo := stale;
    while todo != {}
      invariant todo <= stale
      invariant forall n :: n in stale - todo ==> IsFileOrAbsent(entries, n)
      decreases |todo|
    {
      var name :| name in todo;
      todo := todo - {name};
      if name in entries && entries[name] == Irregular { return false; }
    }
    return true;
  }

  /** The marker tests of check_managed_directory. */
  method CheckMarker(managed: Data) returns (ok: bool)
    ensures ok == IsMarker(managed)
  {
    if managed.Text? || managed.version !in {1, 2} { return false; }
    StaticNamesArePlain();
    ok := CheckNaming(managed.outputs, FixedOutputs(managed.version));
  }

  method CheckNaming(names: seq<string>, fixed: set<string>) returns (ok: bool)
    requires forall n :: n in fixed ==> IsPlainName(n)
    ensures ok == IsNaming(names, fixed)
  {
    var owned := SetOf(names);
    hide IsDesktopName, IsPlainName;
    var desktops := owned - fixed;
    CountOfDistinct(names);
    NamingHasOneDesktop(names, fixed);
    if |names| != |owned| { return false; }
    if !(fixed <= owned) { return false; }
    if |desktops| != 1 { return false; }
    var desktop :| desktop in desktops;
    OnlyMember(desktops, desktop);
    assert owned == fixed + {desktop};
    var plain := forall n <- owned :: IsPlainName(n);
    assert plain <==> IsPlainName(desktop);
    return plain && IsDesktopName(desktop);
  }

  lemma {:induction false} CountOfDistinct(s: seq<string>)
    ensures |SetOf(s)| <= |s|
    ensures |SetOf(s)| == |s| <==> IsDistinct(s)
  {
    if s == [] {
      assert SetOf(s) == {};
    } else {
      var front, last := s[..|s| - 1], s[|s| - 1];
      CountOfDistinct(front);
      assert SetOf(s) == SetOf(front) + {last};
      assert IsDistinct(s) <==> IsDistinct(front) && last !in front;
      if last in front {
        assert SetOf(s) == SetOf(front);
      }
    }
  }

  lemma OnlyMember(s: set<string>, x: string)
    requires x in s && |s| == 1
    ensures s == {x}
  {
    assert |s - {x}| == 0;
  }

  lemma NamingHasOneDesktop(names: seq<string>, fixed: set<string>)
    ensures IsNaming(names, fixed) ==> fixed <= SetOf(names) && |SetOf(names) - fixed| == 1
  {
    hide IsDesktopName, IsPlainName;
    if IsNaming(names, fixed) {
      var desktop :| desktop in names && desktop !in fixed && IsDesktopName(desktop) && IsPlainName(desktop)
                     && SetOf(names) == fixed + {desktop};
      assert SetOf(names) - fixed == {desktop};
    }
  }

  lemma StaticNamesArePlain()
    ensures forall n :: n in STATIC_OUTPUTS ==> IsPlainName(n) && !IsDesktopName(n) && n != MANAGED_FILE
  {
    TextName();
    HeaderName();
    GniName();
    MessagesName();
    PackagingName();
    IconName();
    hide IsPlainName, IsDesktopName;
  }

  lemma TextName()
    ensures IsPlainName("BRANDING") && !IsDesktopName("BRANDING") && "BRANDING" != MANAGED_FILE
  {
    NoDesktop("BRANDING");
  }

  lemma HeaderName()
    ensures IsPlainName("branding.h") && !IsDesktopName("branding.h") && "branding.h" != MANAGED_FILE
  {
    NoDesktop("branding.h");
  }

  lemma GniName()
    ensures IsPlainName("branding.gni") && !IsDesktopName("branding.gni") && "branding.gni" != MANAGED_FILE
  {
    NoDesktop("branding.gni");
  }

  lemma MessagesName()
    ensures IsPlainName("branding_strings.grdp") && !IsDesktopName("branding_strings.grdp")
    ensures "branding_strings.grdp" != MANAGED_FILE
  {
    NoDesktop("branding_strings.grdp");
  }

  lemma PackagingName()
    ensures IsPlainName("packaging.json") && !IsDesktopName("packaging.json") && "packaging.json" != MANAGED_FILE
  {
    NoDesktop("packaging.json");
  }

  lemma IconName()
    ensures IsPlainName("icon.svg") && !IsDesktopName("icon.svg") && "icon.svg" != MANAGED_FILE
  {
    NoDesktop("icon.svg");
  }

  lemma NoDesktop(n: string)
    requires |n| >= 8 && '/' !in n && n[0] != '.' && (n[|n| - 1] != 'p' || n[|n| - 2] != 'o')
    ensures IsPlainName(n) && !IsDesktopName(n) && n != MANAGED_FILE
  {
    assert n[|n| - 8..][7] == n[|n| - 1] && n[|n| - 8..][6] == n[|n| - 2];
  }

  /* What counts as a marker, by how often each name occurs. */

  lemma {:induction false} DistinctExactly(s: seq<string>)
    ensures IsDistinct(s) <==> forall n :: multiset(s)[n] <= 1
  {
    if s != [] {
      var front, last := s[..|s| - 1], s[|s| - 1];
      DistinctExactly(front);
      assert IsDistinct(s) <==> IsDistinct(front) && last !in front;
      hide IsDistinct;
      CountOfMore(front, last);
      assert s == front + [last];
      assert (forall n :: multiset(s)[n] <= 1) ==> multiset(s)[last] <= 1;
      if IsDistinct(s) {
        forall n
          ensures multiset(s)[n] <= 1
        {
          assert n != last ==> multiset(s)[n] == multiset(front)[n];
        }
      }
    }
  }

  lemma CountOfMore(front: seq<string>, last: string)
    ensures forall n :: multiset(front + [last])[n] == multiset(front)[n] + if n == last then 1 else 0
    ensures last in front <==> multiset(front)[last] >= 1
    ensures (forall n :: multiset(front + [last])[n] <= 1) ==> forall n :: multiset(front)[n] <= 1
  {
    assert multiset(front + [last]) == multiset(front) + multiset{last};
    assert last in multiset(front) <==> last in front;
    if forall n :: multiset(front + [last])[n] <= 1 {
      forall n
        ensures multiset(front)[n] <= 1
      {
        assert multiset(front + [last])[n] <= 1;
      }
    }
  }

  /** Every fixed name once, and one more. */
  lemma NamingExactly(names: seq<string>, fixed: set<string>, desktop: string)
    ensures IsDistinct(names) && SetOf(names) == fixed + {desktop} && desktop !in fixed
            <==> multiset(names) == multiset(fixed) + multiset{desktop} && desktop !in fixed
  {
    DistinctExactly(names);
    var m, k := multiset(names), multiset(fixed) + multiset{desktop};
    if desktop !in fixed {
      forall n
        ensures k[n] == if n in fixed + {desktop} then 1 else 0
        ensures n in SetOf(names) <==> m[n] >= 1
      {
      }
      hide IsDistinct, SetOf;
    }
  }

  ghost predicate IsExtra(desktop: string, fixed: set<string>) {
    desktop !in fixed && '/' !in desktop && exists stem: string :: desktop == stem + ".desktop"
  }

  lemma ExtraExactly(desktop: string, fixed: set<string>)
    ensures IsExtra(desktop, fixed) <==> desktop !in fixed && IsDesktopName(desktop) && IsPlainName(desktop)
  {
    if IsDesktopName(desktop) {
      assert desktop == desktop[..|desktop| - 8] + ".desktop";
    }
    if stem: string :| desktop == stem + ".desktop" {
      assert desktop[|desktop| - 8..] == ".desktop";
    }
  }

  /** Schema 1 owns five fixed names and schema 2 six, each besides one desktop file. */
  lemma MarkerExactly(data: Data)
    ensures IsMarker(data) <==>
            && data.Marker? && (data.version == 1 || data.version == 2)
            && var common := {"branding.h", "branding.gni", "branding_strings.grdp", "packaging.json", "icon.svg"};
               var fixed := if data.version == 1 then common else common + {"BRANDING"};
               exists desktop :: IsExtra(desktop, fixed) && multiset(data.outputs) == multiset(fixed) + multiset{desktop}
  {
    if data.Marker? && data.version in {1, 2} {
      var common := {"branding.h", "branding.gni", "branding_strings.grdp", "packaging.json", "icon.svg"};
      var fixed := if data.version == 1 then common else common + {"BRANDING"};
      assert fixed == FixedOutputs(data.version) by { FixedNames(); }
      hide FixedOutputs;
      forall desktop
        ensures && IsDistinct(data.outputs) && SetOf(data.outputs) == fixed + {desktop}
                && desktop !in fixed && IsDesktopName(desktop) && IsPlainName(desktop)
                <==> IsExtra(desktop, fixed) && multiset(data.outputs) == multiset(fixed) + multiset{desktop}
      {
        NamingExactly(data.outputs, fixed, desktop);
        ExtraExactly(desktop, fixed);
      }
      NamingIs(data.outputs, fixed);
    }
  }

  lemma NamingIs(names: seq<string>, fixed: set<string>)
    ensures IsNaming(names, fixed) <==>
            exists desktop :: && IsDistinct(names) && SetOf(names) == fixed + {desktop}
                              && desktop !in fixed && IsDesktopName(desktop) && IsPlainName(desktop)
  {
    hide IsDesktopName, IsPlainName, IsDistinct;
    if desktop :| && IsDistinct(names) && SetOf(names) == fixed + {desktop}
                  && desktop !in fixed && IsDesktopName(desktop) && IsPlainName(desktop) {
      assert desktop in SetOf(names);
    }
  }

  lemma FixedNames()
    ensures var common := {"branding.h", "branding.gni", "branding_strings.grdp", "packaging.json", "icon.svg"};
            V1_STATIC_OUTPUTS == common && STATIC_OUTPUTS == common + {"BRANDING"}
  {
    assert "BRANDING"[0] == 'B' && "branding.h"[0] == 'b' && "branding.gni"[0] == 'b' && "branding_strings.grdp"[0] == 'b';
    assert "packaging.json"[0] == 'p' && "icon.svg"[0] == 'i';
  }

  /* Theorems. */

  /** The marker that a run writes is accepted by the next run, whose check fails only if it plans
      a new desktop name that something unowned has taken. */
  lemma FinalIsAccepted(entries: Entries, outputs: map<string, string>, order: seq<string>, next: map<string, string>)
    requires AreOutputs(outputs) && AreOutputs(next) && IsOrderOf(order, outputs)
    ensures var entries' := Final(entries, outputs, order);
            && Owned(entries') == outputs.Keys
            && (IsAccepted(entries', next.Keys) <==> forall n :: n in next.Keys - outputs.Keys ==> n !in entries')
  {
    var entries' := Final(entries, outputs, order);
    hide Owned;
    NamesOfOutputs(outputs);
    NamesOfOutputs(next);
    WrittenMarker(outputs, order);
    hide AreOutputs, IsMarker, IsOrderOf;
    assert entries'[MANAGED_FILE] == Regular(Marker(2, order)) && Owned(entries') == outputs.Keys by {
      OwnedAfter(entries', order);
    }
    assert forall n :: n in outputs ==> IsFileOrAbsent(entries', n);
  }

  lemma OwnedAfter(entries: Entries, order: seq<string>)
    requires MANAGED_FILE in entries && entries[MANAGED_FILE] == Regular(Marker(2, order))
    ensures Owned(entries) == SetOf(order)
  {
  }

  lemma NamesOfOutputs(outputs: map<string, string>)
    requires AreOutputs(outputs)
    ensures MANAGED_FILE !in outputs && STATIC_OUTPUTS <= outputs.Keys
  {
    StaticNamesArePlain();
    assert !IsDesktopName(MANAGED_FILE);
  }

  lemma WrittenMarker(outputs: map<string, string>, order: seq<string>)
    requires AreOutputs(outputs) && IsOrderOf(order, outputs)
    ensures IsMarker(Marker(2, order))
  {
    var desktop :| IsDesktopName(desktop) && IsPlainName(desktop) && desktop !in STATIC_OUTPUTS
                   && outputs.Keys == STATIC_OUTPUTS + {desktop};
    assert desktop in SetOf(order);
  }

  /** Generating the same outputs again changes nothing. */
  lemma RepeatChangesNothing(entries: Entries, outputs: map<string, string>, order: seq<string>)
    requires AreOutputs(outputs) && IsOrderOf(order, outputs)
    ensures var entries' := Final(entries, outputs, order);
            IsAccepted(entries', outputs.Keys) && Final(entries', outputs, order) == entries'
  {
    FinalIsAccepted(entries, outputs, order, outputs);
    NamesOfOutputs(outputs);
    FinalTwice(entries, outputs, order);
  }

  lemma FinalTwice(entries: Entries, outputs: map<string, string>, order: seq<string>)
    requires Owned(Final(entries, outputs, order)) == outputs.Keys && MANAGED_FILE !in outputs
    ensures Final(Final(entries, outputs, order), outputs, order) == Final(entries, outputs, order)
  {
    hide Owned;
    var f := Final(entries, outputs, order);
    var g := Final(f, outputs, order);
    forall n
      ensures n in g <==> n in f
      ensures n in f ==> g[n] == f[n]
    {
    }
  }

  /** Nothing that was there is changed or removed but the marker and the files it owned. */
  lemma UnownedIsUntouched(entries: Entries, outputs: map<string, string>, order: seq<string>, n: string)
    requires AreOutputs(outputs) && IsAccepted(entries, outputs.Keys) && n in entries
    requires !IsKept(entries, Final(entries, outputs, order), n)
    ensures n == MANAGED_FILE || (n in Owned(entries) && entries[n].Regular?)
  {
    hide Owned, AreOutputs, IsMarker;
  }

  /** A directory of schema 1 is taken over exactly if BRANDING, which schema 1 does not own, does not
      exist yet; it ends with a marker that owns BRANDING as well. */
  lemma SchemaOneMigrates(entries: Entries, outputs: map<string, string>, order: seq<string>, names: seq<string>)
    requires AreOutputs(outputs) && IsOrderOf(order, outputs)
    requires MANAGED_FILE in entries && entries[MANAGED_FILE] == Regular(Marker(1, names)) && IsMarker(Marker(1, names))
    requires SetOf(names) + {"BRANDING"} == outputs.Keys && forall n :: n in names ==> IsFileOrAbsent(entries, n)
    ensures IsAccepted(entries, outputs.Keys) <==> "BRANDING" !in entries
    ensures Owned(Final(entries, outputs, order)) == Owned(entries) + {"BRANDING"}
  {
    OwnedBySchemaOne(entries, names);
    FinalIsAccepted(entries, outputs, order, outputs);
    hide AreOutputs, IsMarker, IsOrderOf, Final, Owned;
    var added := "BRANDING";
    AcceptedWithOneMore(entries, names, outputs.Keys, added);
  }

  lemma OwnedBySchemaOne(entries: Entries, names: seq<string>)
    requires MANAGED_FILE in entries && entries[MANAGED_FILE] == Regular(Marker(1, names)) && IsMarker(Marker(1, names))
    ensures Owned(entries) == SetOf(names) && "BRANDING" !in SetOf(names)
  {
    assert !IsDesktopName("BRANDING") by { TextName(); }
    hide IsDesktopName, IsPlainName;
  }

  lemma AcceptedWithOneMore(entries: Entries, names: seq<string>, planned: set<string>, added: string)
    requires MANAGED_FILE in entries && entries[MANAGED_FILE].Regular? && IsMarker(entries[MANAGED_FILE].data)
    requires Owned(entries) == SetOf(names) && SetOf(names) + {added} == planned && added !in SetOf(names)
    requires forall n :: n in names ==> IsFileOrAbsent(entries, n)
    ensures IsAccepted(entries, planned) <==> added !in entries
  {
    hide IsMarker, Owned;
    assert forall n :: n in SetOf(names) ==> n in names;
    assert added in planned;
  }

  /** After a run that stopped halfway, the same run is accepted again, and then ends as it would have,
      exactly if no output that the old marker does not own has been written yet. */
  lemma StoppedRunRestarts(entries: Entries, entries': Entries, outputs: map<string, string>, order: seq<string>)
    requires AreOutputs(outputs) && IsAccepted(entries, outputs.Keys) && IsPartial(entries, entries', outputs)
    ensures IsAccepted(entries', outputs.Keys) <==> forall n :: n in outputs.Keys - Owned(entries) ==> n !in entries'
    ensures IsAccepted(entries', outputs.Keys) ==> Final(entries', outputs, order) == Final(entries, outputs, order)
  {
    NamesOfOutputs(outputs);
    MarkerIsUnowned(entries, outputs.Keys);
    assert IsKept(entries, entries', MANAGED_FILE);
    assert Owned(entries') == Owned(entries);
    hide Owned, AreOutputs, IsMarker;
    if entries == map[] {
      StoppedFromEmpty(entries', outputs);
    }
    if IsAccepted(entries', outputs.Keys) {
      SameFinal(entries, entries', outputs, order);
    }
  }

  lemma MarkerIsUnowned(entries: Entries, planned: set<string>)
    requires IsAccepted(entries, planned)
    ensures MANAGED_FILE !in Owned(entries)
  {
    StaticNamesArePlain();
    assert !IsDesktopName(MANAGED_FILE);
  }

  lemma StoppedFromEmpty(entries: Entries, outputs: map<string, string>)
    requires IsPartial(map[], entries, outputs) && MANAGED_FILE !in entries
    ensures entries == map[] <==> forall n :: n in outputs ==> n !in entries
  {
    if forall n :: n in outputs ==> n !in entries {
      assert forall n :: n !in entries;
      assert entries == map[];
    }
  }

  lemma SameFinal(entries: Entries, entries': Entries, outputs: map<string, string>, order: seq<string>)
    requires IsPartial(entries, entries', outputs) && Owned(entries') == Owned(entries)
    ensures Final(entries', outputs, order) == Final(entries, outputs, order)
  {
    hide Owned;
    var f, f' := Final(entries, outputs, order), Final(entries', outputs, order);
    forall n
      ensures n in f <==> n in f'
      ensures n in f ==> f[n] == f'[n]
    {
    }
  }

  /** Renaming the desktop file is therefore not restartable: a run that stops once it has written the
      new file, but not yet the marker, is refused from then on. */
  lemma RenameGetsStuck(entries: Entries, outputs: map<string, string>, desktop: string)
    requires AreOutputs(outputs) && IsAccepted(entries, outputs.Keys) && desktop in outputs && desktop !in Owned(entries)
    ensures var entries' := entries[desktop := Regular(Text(outputs[desktop]))];
            IsPartial(entries, entries', outputs) && !IsAccepted(entries', outputs.Keys)
  {
    var entries' := entries[desktop := Regular(Text(outputs[desktop]))];
    assert forall n :: n != desktop ==> IsKept(entries, entries', n);
    hide Owned, AreOutputs;
    assert IsPartial(entries, entries', outputs);
    StoppedRunRestarts(entries, entries', outputs, []);
    assert desktop in outputs.Keys - Owned(entries);
  }
}
