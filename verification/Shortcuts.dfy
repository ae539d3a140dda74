/** Keyboard shortcuts: the validator in config.cc and the converter in runtime_shortcuts.cc whose
    loop terminates only because of it. */
module Shortcuts {

  import opened Strings
  import opened Wrappers

  datatype Modifier = Control | Alt | Shift

  function ModifierName(m: Modifier): (s: string)
    ensures |s| >= 3 && '+' !in s
  {
    match m
    case Control => "Ctrl"
    case Alt => "Alt"
    case Shift => "Shift"
  }

  predicate IsKey(c: char) {
    'A' <= c <= 'Z' || '0' <= c <= '9'
  }

  /** Modifiers with a '+' after each, then the key. */
  function Spelling(mods: seq<Modifier>, key: char): (s: string)
    ensures s != ""
  {
    if mods == [] then [key] else ModifierName(mods[0]) + "+" + Spelling(mods[1..], key)
  }

  predicate AreDistinct(mods: seq<Modifier>) {
    forall i, j :: 0 <= i < j < |mods| ==> mods[i] != mods[j]
  }

  /** Nonempty shortcuts: a nonempty list of different modifiers followed by one key. */
  ghost predicate IsEnabled(s: string) {
    exists mods: seq<Modifier>, key: char :: mods != [] && AreDistinct(mods) && IsKey(key) && s == Spelling(mods, key)
  }

  lemma SpellingSplits(mods: seq<Modifier>, key: char)
    requires key != '+'
    ensures var s := Spelling(mods, key);
            if mods == [] then s == [key] && Find(s, '+') == 1
            else
              && Find(s, '+') == |ModifierName(mods[0])| && Find(s, '+') < |s|
              && s[..Find(s, '+')] == ModifierName(mods[0]) && s[Find(s, '+') + 1..] == Spelling(mods[1..], key)
  {
    var s := Spelling(mods, key);
    if mods == [] {
      assert s[..1] == [key];
      FindUnique(s, '+', 1);
    } else {
      var n := ModifierName(mods[0]);
      assert s == n + "+" + Spelling(mods[1..], key);
      assert s[..|n|] == n;
      FindUnique(s, '+', |n|);
    }
  }

  /** What is still acceptable after the modifiers in used. */
  ghost predicate IsRest(s: string, used: set<Modifier>) {
    exists mods: seq<Modifier>, key: char ::
      AreDistinct(mods) && (forall m :: m in mods ==> m !in used) && IsKey(key) && s == Spelling(mods, key)
  }

  lemma RestUncons(s: string, used: set<Modifier>, mods: seq<Modifier>, key: char)
    requires AreDistinct(mods) && (forall m :: m in mods ==> m !in used) && IsKey(key) && s == Spelling(mods, key)
    ensures s != ""
    ensures if mods == [] then Find(s, '+') == |s| == 1 && IsKey(s[0])
            else Find(s, '+') < |s| && mods[0] !in used && s[..Find(s, '+')] == ModifierName(mods[0])
                 && IsRest(s[Find(s, '+') + 1..], used + {mods[0]})
  {
    hide Find, Spelling;
    SpellingSplits(mods, key);
    if mods != [] {
      var tail := mods[1..];
      assert mods[0] in mods;
      forall x | x in tail
        ensures x !in used + {mods[0]}
      {
        var i :| 0 <= i < |tail| && tail[i] == x;
        assert mods[i + 1] == x && x in mods;
      }
      assert AreDistinct(tail);
    }
  }

  lemma RestCons(s: string, used: set<Modifier>, m: Modifier)
    requires Find(s, '+') < |s| && m !in used && s[..Find(s, '+')] == ModifierName(m) && IsRest(s[Find(s, '+') + 1..], used + {m})
    ensures IsRest(s, used)
  {
    hide Find, Spelling, ModifierName, AreDistinct;
    var tail := s[Find(s, '+') + 1..];
    var mods: seq<Modifier>, key: char :|
      AreDistinct(mods) && (forall x :: x in mods ==> x !in used + {m}) && IsKey(key) && tail == Spelling(mods, key);
    ConsSpelling(m, mods, key);
    CutAtPlus(s);
    ConsDistinct(m, mods);
    var all := [m] + mods;
    assert s == Spelling(all, key);
    assert forall x :: x in all ==> x == m || x in mods;
  }

  lemma CutAtPlus(s: string)
    requires Find(s, '+') < |s|
    ensures s == s[..Find(s, '+')] + "+" + s[Find(s, '+') + 1..]
  {
    CutAt(s, Find(s, '+'), '+');
  }

  lemma CutAt(s: string, e: nat, c: char)
    requires e < |s| && s[e] == c
    ensures s == s[..e] + [c] + s[e + 1..]
  {
  }

  lemma ConsDistinct(m: Modifier, mods: seq<Modifier>)
    requires AreDistinct(mods) && m !in mods
    ensures AreDistinct([m] + mods)
  {
  }

  lemma RestStep(s: string, used: set<Modifier>)
    requires s != ""
    ensures var token := s[..Find(s, '+')];
            IsRest(s, used) <==>
            if Find(s, '+') == |s| then |s| == 1 && IsKey(s[0])
            else exists m :: m !in used && token == ModifierName(m) && IsRest(s[Find(s, '+') + 1..], used + {m})
  {
    hide Find, Spelling, AreDistinct;
    if IsRest(s, used) {
      var mods: seq<Modifier>, key: char :|
        AreDistinct(mods) && (forall m :: m in mods ==> m !in used) && IsKey(key) && s == Spelling(mods, key);
      RestUncons(s, used, mods, key);
    }
    if Find(s, '+') == |s| && |s| == 1 && IsKey(s[0]) {
      LoneKey(s, used);
    } else if m :| Find(s, '+') < |s| && m !in used && s[..Find(s, '+')] == ModifierName(m)
                   && IsRest(s[Find(s, '+') + 1..], used + {m}) {
      RestCons(s, used, m);
    }
  }

  lemma LoneKey(s: string, used: set<Modifier>)
    requires |s| == 1 && IsKey(s[0])
    ensures IsRest(s, used)
  {
    EmptySpelling(s[0]);
    assert s == Spelling([], s[0]) && AreDistinct([]);
  }

  lemma EmptySpelling(key: char)
    ensures Spelling([], key) == [key]
  {
  }

  lemma ConsSpelling(m: Modifier, mods: seq<Modifier>, key: char)
    ensures Spelling([m] + mods, key) == ModifierName(m) + "+" + Spelling(mods, key)
  {
    assert ([m] + mods)[1..] == mods;
  }

  /** How a spelling starts tells its first modifier; what has none is one letter or digit. */
  lemma SpelledExactly(mods: seq<Modifier>, key: char)
    ensures var s := Spelling(mods, key);
            && ("Ctrl+" <= s <==> mods != [] && mods[0] == Control)
            && ("Alt+" <= s <==> mods != [] && mods[0] == Alt)
            && ("Shift+" <= s <==> mods != [] && mods[0] == Shift)
            && (mods == [] <==> s == [key])
    ensures mods != [] ==>
              var n := if mods[0] == Control then 5 else if mods[0] == Alt then 4 else 6;
              Spelling(mods, key)[n..] == Spelling(mods[1..], key)
  {
    if mods != [] {
      var name := ModifierName(mods[0]) + "+";
      var s := Spelling(mods, key);
      assert s == name + Spelling(mods[1..], key);
      assert s[..|name|] == name && s[0] == name[0];
      assert "Ctrl+"[0] == 'C' && "Alt+"[0] == 'A' && "Shift+"[0] == 'S';
    }
  }

  lemma OneKeyExactly(c: char)
    ensures IsEnabled("Ctrl+" + [c]) <==> 'A' <= c <= 'Z' || '0' <= c <= '9'
  {
    var s := "Ctrl+" + [c];
    assert s[5..] == [c] && s[..5] == "Ctrl+";
    EmptySpelling(c);
    ConsSpelling(Control, [], c);
    assert [Control] + [] == [Control] && s == Spelling([Control], c) && AreDistinct([Control]);
    hide Spelling;
    if mods: seq<Modifier>, key: char :| mods != [] && AreDistinct(mods) && IsKey(key) && s == Spelling(mods, key) {
      SpelledExactly(mods, key);
      LongSpelling(mods[1..], key);
      EmptySpelling(key);
      assert [c][0] == [key][0];
    }
  }

  lemma EnabledIsRest(s: string)
    ensures IsEnabled(s) <==> IsRest(s, {}) && Find(s, '+') < |s|
  {
    forall mods: seq<Modifier>, key: char | AreDistinct(mods) && IsKey(key) && s == Spelling(mods, key)
      ensures mods != [] <==> Find(s, '+') < |s|
    {
      SpellingSplits(mods, key);
    }
    if IsEnabled(s) {
      var mods: seq<Modifier>, key: char :| mods != [] && AreDistinct(mods) && IsKey(key) && s == Spelling(mods, key);
      assert IsRest(s, {});
    }
  }

  /** IsShortcut. */
  method IsShortcut(text: string) returns (ok: bool)
    ensures ok <==> text == "" || IsEnabled(text)
  {
    hide Find, Spelling, IsRest, IsEnabled;
    if text == "" { return true; }
    EnabledIsRest(text);
    var shortcut := text;
    var control, alt, shift, key := false, false, false, false;
    ghost var used: set<Modifier> := {};
    while shortcut != ""
      invariant shortcut != ""
      invariant used == (if control then {Control} else {}) + (if alt then {Alt} else {}) + (if shift then {Shift} else {})
      invariant if key then !IsRest(text, {}) else IsRest(text, {}) <==> IsRest(shortcut, used)
      invariant used == {} && !key ==> shortcut == text
      invariant used != {} ==> Find(text, '+') < |text|
      decreases |shortcut|
    {
      RestStep(shortcut, used);
      var separator := Find(shortcut, '+');
      var token := shortcut[..separator];
      var last := separator == |shortcut|;
      assert last ==> token == shortcut;
      ModifierNames();
      if token == "Ctrl" && !control && !key {
        control := true;
        used := used + {Control};
      } else if token == "Alt" && !alt && !key {
        alt := true;
        used := used + {Alt};
      } else if token == "Shift" && !shift && !key {
        shift := true;
        used := used + {Shift};
      } else if !key && |token| == 1 && IsKey(token[0]) {
        key := true;
      } else {
        return false;
      }
      if last { break; }
      shortcut := shortcut[separator + 1..];
      if shortcut == "" {
        EmptyIsNoRest(used);
        return false;
      }
    }
    return key && (control || alt || shift);
  }

  lemma ModifierNames()
    ensures ModifierName(Control) == "Ctrl" && ModifierName(Alt) == "Alt" && ModifierName(Shift) == "Shift"
    ensures forall m: Modifier :: ModifierName(m) in {"Ctrl", "Alt", "Shift"}
  {
  }

  lemma EmptyIsNoRest(used: set<Modifier>)
    ensures !IsRest("", used)
  {
  }

  /* ParseShortcut. */

  /** The accelerator: the set of modifier bits and the key code. */
  datatype Accelerator = Accelerator(code: int, modifiers: set<Modifier>)

  const VKEY_0 := 0x30
  const VKEY_A := 0x41

  function KeyCode(key: char): int {
    if 'A' <= key <= 'Z' then VKEY_A + (key as int - 'A' as int) else VKEY_0 + (key as int - '0' as int)
  }

  function Elements(mods: seq<Modifier>): set<Modifier> {
    set m | m in mods
  }

  function TokenBits(token: string): set<Modifier> {
    if token == "Ctrl" then {Control} else if token == "Alt" then {Alt} else if token == "Shift" then {Shift} else {}
  }

  /** value.remove_prefix(separator + 1), where npos + 1 wraps around to 0. */
  function Advanced(value: string): string {
    if Find(value, '+') == |value| then value else value[Find(value, '+') + 1..]
  }

  /** ParseShortcut, for what the validator accepts: its loop ends, and it reads off exactly the
      modifiers and the key of the spelling. */
  method ParseShortcut(text: string, ghost mods: seq<Modifier>, ghost key: char) returns (r: Accelerator)
    requires IsKey(key) && text == Spelling(mods, key)
    ensures r == Accelerator(KeyCode(key), Elements(mods))
    // Windows key codes of letters and digits are their ASCII codes.
    ensures r.code == key as int && forall m :: m in r.modifiers <==> m in mods
  {
    hide Find, Spelling, TokenBits, Elements, ModifierName;
    NoElements();
    var modifiers: set<Modifier> := {};
    var value := text;
    ghost var i := 0;
    SpellingSplits(mods, key);
    assert mods[i..] == mods;
    while |value| > 1
      invariant 0 <= i <= |mods| && value == Spelling(mods[i..], key)
      invariant modifiers == Elements(mods[..i])
      decreases |value|
    {
      SpellingSplits(mods[i..], key);
      TokenOfName(mods[i]);
      ElementsSnoc(mods[..i], mods[i]);
      var token := value[..Find(value, '+')];
      modifiers := modifiers + TokenBits(token);
      value := Advanced(value);
      assert mods[i..][1..] == mods[i + 1..];
      assert mods[..i + 1] == mods[..i] + [mods[i]];
      i := i + 1;
    }
    LongSpelling(mods[i..], key);
    SpellingSplits(mods[i..], key);
    assert mods[..i] == mods;
    ElementsAre(mods);
    return Accelerator(KeyCode(value[0]), modifiers);
  }

  lemma ElementsAre(mods: seq<Modifier>)
    ensures forall m :: m in Elements(mods) <==> m in mods
  {
  }

  lemma NoElements()
    ensures Elements([]) == {}
  {
  }

  lemma TokenOfName(m: Modifier)
    ensures TokenBits(ModifierName(m)) == {m}
  {
  }

  lemma ElementsSnoc(mods: seq<Modifier>, m: Modifier)
    ensures Elements(mods + [m]) == Elements(mods) + {m}
  {
  }

  lemma LongSpelling(mods: seq<Modifier>, key: char)
    ensures |Spelling(mods, key)| > 1 <==> mods != []
  {
    if mods != [] {
      assert |Spelling(mods, key)| >= |ModifierName(mods[0])|;
    }
  }

  /** Two accepted shortcuts are the same accelerator exactly when their modifiers are the same in
      some order and their keys are equal. */
  lemma SameAccelerator(mods: seq<Modifier>, key: char, mods': seq<Modifier>, key': char)
    requires AreDistinct(mods) && AreDistinct(mods') && IsKey(key) && IsKey(key')
    ensures Accelerator(KeyCode(key), Elements(mods)) == Accelerator(KeyCode(key'), Elements(mods')) <==>
            key == key' && multiset(mods) == multiset(mods')
  {
    DistinctMultiset(mods);
    DistinctMultiset(mods');
    if Elements(mods) == Elements(mods') {
      assert multiset(Elements(mods)) == multiset(Elements(mods'));
    }
    if multiset(mods) == multiset(mods') {
      assert forall m :: m in mods <==> m in multiset(mods);
      assert forall m :: m in mods' <==> m in multiset(mods');
    }
  }

  lemma {:induction false} DistinctMultiset(mods: seq<Modifier>)
    requires AreDistinct(mods)
    ensures multiset(mods) == multiset(Elements(mods))
  {
    if mods != [] {
      var head, tail := mods[0], mods[1..];
      DistinctMultiset(tail);
      assert mods == [head] + tail;
      assert Elements(mods) == {head} + Elements(tail);
    }
  }

  /* Why the validator is needed. */

  function Repeated(value: string, n: nat): string {
    if n == 0 then value else Repeated(Advanced(value), n - 1)
  }

  /** What follows the last '+'. */
  function LastToken(value: string): string
    decreases |value|
  {
    if Find(value, '+') == |value| then value else LastToken(value[Find(value, '+') + 1..])
  }

  lemma {:induction false} RepeatedKeepsLastToken(value: string, n: nat)
    ensures LastToken(Repeated(value, n)) == LastToken(value)
    ensures |LastToken(value)| <= |value|
    decreases n, |value|
  {
    hide Find;
    if n > 0 {
      RepeatedKeepsLastToken(Advanced(value), n - 1);
    } else if Find(value, '+') < |value| {
      RepeatedKeepsLastToken(value[Find(value, '+') + 1..], 0);
    }
  }

  lemma {:induction false} ReachesLastToken(value: string) returns (n: nat)
    ensures Repeated(value, n) == LastToken(value)
    decreases |value|
  {
    hide Find;
    if Find(value, '+') == |value| {
      n := 0;
    } else {
      var m := ReachesLastToken(value[Find(value, '+') + 1..]);
      n := m + 1;
    }
  }

  /** On an arbitrary string the loop ends exactly when at most one character follows the last
      '+'; on any other it makes no progress once that '+' is gone. */
  lemma LoopEndsExactly(value: string)
    ensures (exists n: nat :: |Repeated(value, n)| <= 1) <==> |LastToken(value)| <= 1
  {
    var n := ReachesLastToken(value);
    assert |LastToken(value)| <= 1 ==> |Repeated(value, n)| <= 1;
    forall m: nat | |Repeated(value, m)| <= 1
      ensures |LastToken(value)| <= 1
    {
      RepeatedKeepsLastToken(value, m);
      RepeatedKeepsLastToken(Repeated(value, m), 0);
    }
  }

  /* Which action a key press reaches. */

  datatype UiAction = ToggleTopBar | ToggleTabBar

  /** GetRuntimeShortcuts and FindRuntimeUiAction: the enabled shortcuts in order, first match. */
  function FindAction(top: Option<Accelerator>, tab: Option<Accelerator>, pressed: Accelerator): Option<UiAction> {
    if top == Some(pressed) then Some(ToggleTopBar)
    else if tab == Some(pressed) then Some(ToggleTabBar)
    else None
  }

  /** The configuration check compares spellings. With both actions enabled and spelled
      differently, the second is reachable exactly when the modifiers are not merely reordered. */
  lemma SecondActionReachable(mods: seq<Modifier>, key: char, mods': seq<Modifier>, key': char)
    requires AreDistinct(mods) && AreDistinct(mods') && IsKey(key) && IsKey(key')
    ensures var top, tab := Accelerator(KeyCode(key), Elements(mods)), Accelerator(KeyCode(key'), Elements(mods'));
            && FindAction(Some(top), Some(tab), top) == Some(ToggleTopBar)
            && (FindAction(Some(top), Some(tab), tab) == Some(ToggleTabBar) <==>
                !(key == key' && multiset(mods) == multiset(mods')))
  {
    SameAccelerator(mods, key, mods', key');
  }

  /** A pair that passes the check and still collides. */
  lemma ReorderedShortcutsCollide()
    ensures var top, tab := Spelling([Control, Alt], 'K'), Spelling([Alt, Control], 'K');
            && top != tab && IsEnabled(top) && IsEnabled(tab)
            && FindAction(Some(Accelerator(KeyCode('K'), Elements([Control, Alt]))),
                          Some(Accelerator(KeyCode('K'), Elements([Alt, Control]))),
                          Accelerator(KeyCode('K'), Elements([Alt, Control]))) == Some(ToggleTopBar)
  {
    assert Spelling([Control, Alt], 'K')[0] == 'C' && Spelling([Alt, Control], 'K')[0] == 'A';
    assert multiset([Control, Alt]) == multiset([Alt, Control]);
    SameAccelerator([Control, Alt], 'K', [Alt, Control], 'K');
  }
}
