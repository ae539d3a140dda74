/** What the command line normaliser accepts and finds, token by token: no scanning order occurs in it. */
module ArgumentForms {

  import opened Strings
  import opened Wrappers
  import opened Arguments

  /* Trimming. */

  predicate AreWhite(s: string) {
    forall i :: 0 <= i < |s| ==> IsWhite(s[i])
  }

  lemma {:induction false} TrimLeftCuts(s: string) returns (a: string)
    ensures s == a + TrimLeft(s) && AreWhite(a) && (TrimLeft(s) == "" || !IsWhite(TrimLeft(s)[0]))
  {
    a := "";
    if s != "" && IsWhite(s[0]) {
      var b := TrimLeftCuts(s[1..]);
      a := [s[0]] + b;
    }
  }

  lemma {:induction false} TrimRightCuts(s: string) returns (b: string)
    ensures s == TrimRight(s) + b && AreWhite(b) && (TrimRight(s) == "" || !IsWhite(TrimRight(s)[|TrimRight(s)| - 1]))
  {
    b := "";
    if s != "" && IsWhite(s[|s| - 1]) {
      var a := TrimRightCuts(s[..|s| - 1]);
      b := a + [s[|s| - 1]];
    }
  }

  /** Trim cuts whitespace off both ends and leaves none there. */
  lemma TrimExactly(s: string) returns (a: string, b: string)
    ensures s == a + Trim(s) + b && AreWhite(a) && AreWhite(b)
    ensures var t := Trim(s); t == "" || (!IsWhite(t[0]) && !IsWhite(t[|t| - 1]))
  {
    a := TrimLeftCuts(s);
    b := TrimRightCuts(TrimLeft(s));
  }

  /* The forms of a selector, in the original token. */

  predicate IsBare(token: string, s: Selector) {
    match s
    case ConfigSelector => Trim(token) in {"-config", "--config"}
    case EnvironmentSelector => Trim(token) in {"-environment", "--environment"}
  }

  predicate IsEquals(token: string, s: Selector) {
    match s
    case ConfigSelector => StartsWith(Trim(token), "-config=") || StartsWith(Trim(token), "--config=")
    case EnvironmentSelector => StartsWith(Trim(token), "-environment=") || StartsWith(Trim(token), "--environment=")
  }

  predicate Names(token: string, s: Selector) {
    IsBare(token, s) || IsEquals(token, s)
  }

  /** What follows the first '='. */
  function AfterEquals(token: string): string {
    var e := Find(Trim(token), '=');
    if e == |Trim(token)| then "" else Trim(token)[e + 1..]
  }

  /** --user-data-dir, with or without a value. */
  predicate IsNative(token: string) {
    || Trim(token) in {"-user-data-dir", "--user-data-dir"}
    || StartsWith(Trim(token), "-user-data-dir=") || StartsWith(Trim(token), "--user-data-dir=")
  }

  lemma PrefixOneMore(s: string, p: string, c: char)
    ensures StartsWith(s, p + [c]) <==> StartsWith(s, p) && |s| > |p| && s[|p|] == c
  {
    if |s| > |p| {
      assert s[..|p| + 1] == s[..|p|] + [s[|p|]];
      assert s[..|p| + 1] == p + [c] ==> s[..|p| + 1][..|p|] == (p + [c])[..|p|] && s[..|p| + 1][|p|] == (p + [c])[|p|];
    }
  }

  lemma PrefixCons(c: char, s: string, p: string)
    ensures StartsWith([c] + s, [c] + p) <==> StartsWith(s, p)
  {
    if |p| <= |s| {
      assert ([c] + s)[..|p| + 1] == [c] + s[..|p|];
      assert [c] + s[..|p|] == [c] + p ==> ([c] + s[..|p|])[1..] == ([c] + p)[1..];
    }
  }

  lemma SwitchForms(token: string, name: string)
    requires |name| > 2 && name[0] == '-' && name[1] != '-'
    ensures IsSwitch(SingleDash(token), name) <==>
            token == name || token == "-" + name || StartsWith(token, name + "=") || StartsWith(token, "-" + name + "=")
  {
    var t := SingleDash(token);
    PrefixOneMore(t, name, '=');
    assert "-" + name + "=" == ['-'] + (name + "=");
    if StartsWith(token, "--") {
      assert token == ['-'] + t && token[1] == '-';
      assert token != name && !StartsWith(token, name + "=");
      PrefixCons('-', t, name + "=");
    } else {
      assert |token| >= 2 ==> token[..2] == [token[0], token[1]];
      assert !StartsWith(token, "-" + name + "=") && token != "-" + name;
    }
  }

  lemma EqualsCut(token: string, name: string)
    requires |name| > 2 && name[0] == '-' && name[1] != '-' && '=' !in name
    requires StartsWith(token, name + "=") || StartsWith(token, "-" + name + "=")
    ensures var t := SingleDash(token);
            |t| > |name| && Find(token, '=') < |token| && t[|name| + 1..] == token[Find(token, '=') + 1..]
  {
    var head := if StartsWith(token, name + "=") then name else "-" + name;
    assert token[..|head| + 1] == head + "=";
    assert token[|head|] == token[..|head| + 1][|head|] == '=';
    assert forall k :: 0 <= k < |head| ==> token[k] == token[..|head| + 1][k] == head[k] != '=';
    FindAt(token, '=', |head|);
    hide Find;
    if StartsWith(token, name + "=") {
      assert token[1] == name[1];
      assert !StartsWith(token, "--");
    } else {
      assert token[0] == '-' && token[1] == '-';
      assert token[..2] == "--";
      assert token[1..][|name| + 1..] == token[|head| + 1..];
    }
  }

  lemma BareCut(token: string, name: string)
    requires |name| > 2 && name[0] == '-' && name[1] != '-' && (token == name || token == "-" + name)
    ensures SingleDash(token) == name
    ensures !StartsWith(token, name + "=") && !StartsWith(token, "-" + name + "=")
  {
    if token == "-" + name {
      assert token[1] == '-' && token[..2] == "--";
      assert token[..|name| + 1] == token && (name + "=")[1] == name[1];
    } else {
      assert token[..2] == [token[0], token[1]];
    }
  }

  lemma ConfigForms(token: string)
    ensures IsSwitch(SingleDash(token), "-config") <==>
            token in {"-config", "--config"} || StartsWith(token, "-config=") || StartsWith(token, "--config=")
    ensures token in {"-config", "--config"} ==> SingleDash(token) == "-config"
    ensures StartsWith(token, "-config=") || StartsWith(token, "--config=") ==> IsCut(token, "-config")
  {
    var name := "-config";
    assert |name| > 2 && name[0] == '-' && name[1] != '-' && '=' !in name;
    assert name + "=" == "-config=" && "-" + name == "--config" && "-" + name + "=" == "--config=";
    hide StartsWith, SingleDash, IsSwitch, IsCut;
    FormsOf(token, name);
  }

  lemma EnvironmentForms(token: string)
    ensures IsSwitch(SingleDash(token), "-environment") <==>
            || token in {"-environment", "--environment"}
            || StartsWith(token, "-environment=") || StartsWith(token, "--environment=")
    ensures token in {"-environment", "--environment"} ==> SingleDash(token) == "-environment"
    ensures StartsWith(token, "-environment=") || StartsWith(token, "--environment=") ==> IsCut(token, "-environment")
  {
    var name := "-environment";
    assert |name| > 2 && name[0] == '-' && name[1] != '-' && '=' !in name;
    assert name + "=" == "-environment=" && "-" + name == "--environment" && "-" + name + "=" == "--environment=";
    hide StartsWith, SingleDash, IsSwitch, IsCut;
    FormsOf(token, name);
  }

  /** The program cuts the value off at the first '='. */
  predicate IsCut(token: string, name: string) {
    var t := SingleDash(token);
    |t| > |name| && Find(token, '=') < |token| && t[|name| + 1..] == token[Find(token, '=') + 1..]
  }

  lemma FormsOf(token: string, name: string)
    requires |name| > 2 && name[0] == '-' && name[1] != '-' && '=' !in name
    ensures IsSwitch(SingleDash(token), name) <==>
            token == name || token == "-" + name || StartsWith(token, name + "=") || StartsWith(token, "-" + name + "=")
    ensures token == name || token == "-" + name ==> SingleDash(token) == name
    ensures StartsWith(token, name + "=") || StartsWith(token, "-" + name + "=") ==> IsCut(token, name)
  {
    SwitchForms(token, name);
    hide SingleDash, IsSwitch, Find;
    if StartsWith(token, name + "=") || StartsWith(token, "-" + name + "=") { EqualsCut(token, name); }
    if token == name || token == "-" + name { BareCut(token, name); }
  }

  lemma NotBoth(t: string)
    ensures !(IsSwitch(t, "-config") && IsSwitch(t, "-environment"))
  {
    assert "-config"[1] == 'c' && "-environment"[1] == 'e';
    if IsSwitch(t, "-config") {
      assert t == "-config" || t[..7][1] == t[1];
      assert t[1] == 'c';
    }
    if IsSwitch(t, "-environment") {
      assert t == "-environment" || t[..12][1] == t[1];
      assert t[1] == 'e';
    }
  }

  /** The program's test for a selector finds exactly these forms, and cuts their values the same way. */
  lemma SelectorForms(token: string, s: Selector)
    ensures SelectorOf(Trim(token)) == Some(s) <==> Names(token, s)
    ensures IsEquals(token, s) ==> |SingleDash(Trim(token))| > |Name(s)|
                                   && SingleDash(Trim(token))[|Name(s)| + 1..] == AfterEquals(token)
    ensures IsBare(token, s) ==> SingleDash(Trim(token)) == Name(s)
  {
    var t := Trim(token);
    hide Trim, IsSwitch, StartsWith, SingleDash, Find;
    ConfigForms(t);
    EnvironmentForms(t);
    NotBoth(SingleDash(t));
  }

  lemma NativeForms(token: string)
    ensures IsSwitch(SingleDash(Trim(token)), "-user-data-dir") <==> IsNative(token)
  {
    var name := "-user-data-dir";
    assert |name| > 2 && name[0] == '-' && name[1] != '-';
    assert name + "=" == "-user-data-dir=" && "-" + name == "--user-data-dir" && "-" + name + "=" == "--user-data-dir=";
    hide Trim, IsSwitch, StartsWith, SingleDash;
    SwitchForms(Trim(token), name);
  }

  lemma NoDash(t: string, p: string)
    requires !StartsWith(t, "-") && p != "" && p[0] == '-'
    ensures !StartsWith(t, p) && t != p
  {
    assert p[..1] == "-";
    assert |t| >= |p| ==> t[..1] == t[..|p|][..1];
  }

  lemma NoSwitch(t: string, name: string)
    requires !StartsWith(t, "-") && name != "" && name[0] == '-'
    ensures !IsSwitch(SingleDash(t), name)
  {
    NoDash(t, name);
    NoDash(t, "--");
  }

  /** A token that does not start with a dash names nothing. */
  lemma ValuesNameNothing(token: string)
    requires !StartsWith(Trim(token), "-")
    ensures forall s :: !Names(token, s)
    ensures !IsNative(token)
  {
    hide Trim, StartsWith, SingleDash, IsSwitch, Names, IsNative;
    NoSwitch(Trim(token), "-config");
    NoSwitch(Trim(token), "-environment");
    NoSwitch(Trim(token), "-user-data-dir");
    forall s
      ensures !Names(token, s)
    {
      SelectorForms(token, s);
    }
    NativeForms(token);
  }

  /* Whole command lines. */

  /** e is where the first terminator stands, or the end. */
  predicate IsEnd(tokens: seq<string>, e: nat) {
    e <= |tokens| && (forall i :: 0 <= i < e ==> Trim(tokens[i]) != "--") && (e < |tokens| ==> Trim(tokens[e]) == "--")
  }

  predicate Occurs(tokens: seq<string>, e: nat, s: Selector)
    requires e <= |tokens|
  {
    exists i :: 0 <= i < e && Names(tokens[i], s)
  }

  /** The value that the selector at i has: the next token, or what follows the '='. */
  function ValueAt(tokens: seq<string>, i: nat, s: Selector): Option<string>
    requires i < |tokens|
  {
    if IsEquals(tokens[i], s) then Some(AfterEquals(tokens[i]))
    else if i + 1 < |tokens| && !StartsWith(Trim(tokens[i + 1]), "-") then Some(tokens[i + 1])
    else None
  }

  predicate IsValue(value: Option<string>) {
    value.Some? && value.value != ""
  }

  /** Wherever the selector occurs it has a nonempty value, and it does not occur twice. */
  predicate IsFine(tokens: seq<string>, e: nat, s: Selector)
    requires e <= |tokens|
  {
    && (forall i :: 0 <= i < e && Names(tokens[i], s) ==> IsValue(ValueAt(tokens, i, s)))
    && (forall i, j :: 0 <= i < j < e && Names(tokens[i], s) ==> !Names(tokens[j], s))
  }

  /** The value of the selector is the one where it occurs, and there is none if it does not. */
  predicate IsFound(tokens: seq<string>, e: nat, s: Selector, value: Option<string>)
    requires e <= |tokens|
  {
    && (!Occurs(tokens, e, s) ==> value == None)
    && forall i :: 0 <= i < e && Names(tokens[i], s) ==> value == ValueAt(tokens, i, s)
  }

  predicate HasNative(tokens: seq<string>, e: nat)
    requires e <= |tokens|
  {
    exists i :: 0 <= i < e && IsNative(tokens[i])
  }

  /* Each of these, one token at a time. */

  lemma EndCons(tokens: seq<string>, e: nat)
    requires IsEnd(tokens, e) && e > 0
    ensures IsEnd(tokens[1..], e - 1)
  {
    assert forall i :: 0 <= i < |tokens| - 1 ==> tokens[1..][i] == tokens[i + 1];
  }

  lemma OccursCons(tokens: seq<string>, e: nat, s: Selector)
    requires 0 < e <= |tokens|
    ensures Occurs(tokens, e, s) <==> Names(tokens[0], s) || Occurs(tokens[1..], e - 1, s)
  {
    hide Names;
    var t := tokens[1..];
    assert forall i :: 0 <= i < |t| ==> t[i] == tokens[i + 1];
    if i :| 0 <= i < e && Names(tokens[i], s) && i > 0 {
      assert Names(t[i - 1], s);
    }
    if i :| 0 <= i < e - 1 && Names(t[i], s) {
      assert Names(tokens[i + 1], s);
    }
  }

  lemma NativeCons(tokens: seq<string>, e: nat)
    requires 0 < e <= |tokens|
    ensures HasNative(tokens, e) <==> IsNative(tokens[0]) || HasNative(tokens[1..], e - 1)
  {
    hide IsNative;
    var t := tokens[1..];
    assert forall i :: 0 <= i < |t| ==> t[i] == tokens[i + 1];
    if i :| 0 <= i < e && IsNative(tokens[i]) && i > 0 {
      assert IsNative(t[i - 1]);
    }
    if i :| 0 <= i < e - 1 && IsNative(t[i]) {
      assert IsNative(tokens[i + 1]);
    }
  }

  lemma ValueCons(tokens: seq<string>, i: nat, s: Selector)
    requires 0 < i < |tokens|
    ensures ValueAt(tokens, i, s) == ValueAt(tokens[1..], i - 1, s)
  {
    hide IsEquals, AfterEquals, Trim, StartsWith;
  }

  lemma FoundCons(tokens: seq<string>, e: nat, s: Selector, value: Option<string>)
    requires 0 < e <= |tokens| && !Names(tokens[0], s)
    ensures IsFound(tokens, e, s, value) <==> IsFound(tokens[1..], e - 1, s, value)
  {
    OccursCons(tokens, e, s);
    hide Names, Occurs, ValueAt;
    var t := tokens[1..];
    if IsFound(tokens, e, s, value) {
      forall i | 0 <= i < e - 1 && Names(t[i], s)
        ensures value == ValueAt(t, i, s)
      {
        assert t[i] == tokens[i + 1];
        ValueCons(tokens, i + 1, s);
      }
    }
    if IsFound(t, e - 1, s, value) {
      forall i | 0 <= i < e && Names(tokens[i], s)
        ensures value == ValueAt(tokens, i, s)
      {
        assert i > 0 && t[i - 1] == tokens[i];
        ValueCons(tokens, i, s);
      }
    }
  }

  lemma FoundHere(tokens: seq<string>, e: nat, s: Selector, value: Option<string>)
    requires 0 < e <= |tokens| && Names(tokens[0], s) && !Occurs(tokens[1..], e - 1, s)
    ensures IsFound(tokens, e, s, value) <==> value == ValueAt(tokens, 0, s)
  {
    hide Names, ValueAt;
    var t := tokens[1..];
    forall i | 0 < i < e
      ensures !Names(tokens[i], s)
    {
      assert t[i - 1] == tokens[i];
    }
    assert Names(tokens[0], s);
  }

  lemma FineCons(tokens: seq<string>, e: nat, s: Selector)
    requires 0 < e <= |tokens|
    ensures IsFine(tokens, e, s) <==>
            if Names(tokens[0], s) then IsValue(ValueAt(tokens, 0, s)) && !Occurs(tokens[1..], e - 1, s)
            else IsFine(tokens[1..], e - 1, s)
  {
    hide Names, ValueAt;
    var t := tokens[1..];
    assert forall i :: 0 <= i < |t| ==> t[i] == tokens[i + 1];
    forall i | 0 < i < e
      ensures ValueAt(tokens, i, s) == ValueAt(t, i - 1, s)
    {
      ValueCons(tokens, i, s);
    }
    if Names(tokens[0], s) {
      FineHere(tokens, e, s);
    } else {
      FineLater(tokens, e, s);
    }
  }

  lemma FineHere(tokens: seq<string>, e: nat, s: Selector)
    requires 0 < e <= |tokens| && Names(tokens[0], s)
    ensures IsFine(tokens, e, s) <==> IsValue(ValueAt(tokens, 0, s)) && !Occurs(tokens[1..], e - 1, s)
  {
    hide Names, ValueAt;
    var t := tokens[1..];
    assert forall i :: 0 <= i < |t| ==> t[i] == tokens[i + 1];
    if !Occurs(t, e - 1, s) {
      forall i | 0 < i < e
        ensures !Names(tokens[i], s)
      {
        assert t[i - 1] == tokens[i];
      }
    }
  }

  lemma FineLater(tokens: seq<string>, e: nat, s: Selector)
    requires 0 < e <= |tokens| && !Names(tokens[0], s)
    ensures IsFine(tokens, e, s) <==> IsFine(tokens[1..], e - 1, s)
  {
    hide Names, ValueAt;
    var t := tokens[1..];
    forall i | 0 <= i < e - 1
      ensures t[i] == tokens[i + 1] && ValueAt(t, i, s) == ValueAt(tokens, i + 1, s)
    {
      ValueCons(tokens, i + 1, s);
    }
    if IsFine(t, e - 1, s) {
      forall i | 0 <= i < e && Names(tokens[i], s)
        ensures i > 0 && Names(t[i - 1], s) && ValueAt(tokens, i, s) == ValueAt(t, i - 1, s)
      {
        ValueCons(tokens, i, s);
      }
    }
    if IsFine(tokens, e, s) {
      forall i, j | 0 <= i < j < e - 1 && Names(t[i], s)
        ensures !Names(t[j], s)
      {
        assert Names(tokens[i + 1], s) && !Names(tokens[j + 1], s);
      }
    }
  }

  /** What a scan of the tokens must come to, for one selector: whether it lets the scan succeed, and the
      value it ends with. */
  predicate IsAddable(tokens: seq<string>, e: nat, seen: Option<string>, s: Selector)
    requires e <= |tokens|
  {
    IsFine(tokens, e, s) && (seen.Some? ==> !Occurs(tokens, e, s))
  }

  predicate IsAdded(tokens: seq<string>, e: nat, seen: Option<string>, s: Selector, value: Option<string>)
    requires e <= |tokens|
  {
    if seen.Some? then value == seen else IsFound(tokens, e, s, value)
  }

  predicate IsScanned(tokens: seq<string>, e: nat, seen: Arguments, r: Result<Arguments, Error>)
    requires e <= |tokens|
  {
    && (r.Ok? <==>
          IsAddable(tokens, e, seen.config, ConfigSelector) && IsAddable(tokens, e, seen.environment, EnvironmentSelector))
    && (r.Ok? ==>
          && IsAdded(tokens, e, seen.config, ConfigSelector, r.value.config)
          && IsAdded(tokens, e, seen.environment, EnvironmentSelector, r.value.environment)
          && (r.value.hasUserDataDir <==> seen.hasUserDataDir || HasNative(tokens, e)))
  }

  /** A first token that does not name the selector changes nothing for it. */
  lemma SkipOne(tokens: seq<string>, e: nat, seen: Option<string>, s: Selector)
    requires 0 < e <= |tokens| && !Names(tokens[0], s)
    ensures IsAddable(tokens, e, seen, s) <==> IsAddable(tokens[1..], e - 1, seen, s)
    ensures forall v :: IsAdded(tokens, e, seen, s, v) <==> IsAdded(tokens[1..], e - 1, seen, s, v)
  {
    FineCons(tokens, e, s);
    OccursCons(tokens, e, s);
    hide Names, IsFine, Occurs, IsFound;
    forall v
      ensures IsAdded(tokens, e, seen, s, v) <==> IsAdded(tokens[1..], e - 1, seen, s, v)
    {
      FoundCons(tokens, e, s, v);
    }
  }

  /** One that does, with its value, is as if the selector had been seen before the rest. */
  lemma TakeOne(tokens: seq<string>, e: nat, s: Selector, value: string)
    requires 0 < e <= |tokens| && Names(tokens[0], s) && ValueAt(tokens, 0, s) == Some(value) && value != ""
    ensures IsAddable(tokens, e, None, s) <==> IsAddable(tokens[1..], e - 1, Some(value), s)
    ensures IsAddable(tokens, e, None, s) ==>
              forall v :: IsAdded(tokens, e, None, s, v) <==> IsAdded(tokens[1..], e - 1, Some(value), s, v)
  {
    FineCons(tokens, e, s);
    AbsentIsFine(tokens[1..], e - 1, s);
    hide Names, IsFine, Occurs, IsFound, ValueAt;
    if !Occurs(tokens[1..], e - 1, s) {
      forall v
        ensures IsAdded(tokens, e, None, s, v) <==> IsAdded(tokens[1..], e - 1, Some(value), s, v)
      {
        FoundHere(tokens, e, s, v);
      }
    }
  }

  lemma AbsentIsFine(tokens: seq<string>, e: nat, s: Selector)
    requires e <= |tokens|
    ensures !Occurs(tokens, e, s) ==> IsFine(tokens, e, s)
  {
    hide Names, ValueAt;
  }

  /** A first token that stops the scan. */
  lemma StopOne(tokens: seq<string>, e: nat, seen: Option<string>, s: Selector)
    requires 0 < e <= |tokens| && Names(tokens[0], s) && (seen.Some? || !IsValue(ValueAt(tokens, 0, s)))
    ensures !IsAddable(tokens, e, seen, s)
  {
    FineCons(tokens, e, s);
    OccursCons(tokens, e, s);
    hide Names, IsFine, Occurs, ValueAt;
  }

  lemma NoTokens(tokens: seq<string>, seen: Option<string>, s: Selector)
    ensures IsAddable(tokens, 0, seen, s) && IsAdded(tokens, 0, seen, s, seen)
    ensures !HasNative(tokens, 0)
  {
    hide Names;
  }

  lemma ScannedSkip(tokens: seq<string>, e: nat, seen: Arguments, rest: Result<Arguments, Error>)
    requires 0 < e <= |tokens| && !Names(tokens[0], ConfigSelector) && !Names(tokens[0], EnvironmentSelector)
    requires IsScanned(tokens[1..], e - 1, if IsNative(tokens[0]) then seen.(hasUserDataDir := true) else seen, rest)
    ensures IsScanned(tokens, e, seen, Prepend(tokens[0], rest))
  {
    NativeCons(tokens, e);
    SkipOne(tokens, e, seen.config, ConfigSelector);
    SkipOne(tokens, e, seen.environment, EnvironmentSelector);
    hide Names, IsNative, IsAddable, IsAdded, HasNative;
  }

  lemma ScannedTake(tokens: seq<string>, e: nat, seen: Arguments, s: Selector, value: string, out: string,
                    rest: Result<Arguments, Error>)
    requires 0 < e <= |tokens| && Names(tokens[0], s) && !Names(tokens[0], Other(s)) && !IsNative(tokens[0])
    requires ValueOf(seen, s) == None && ValueAt(tokens, 0, s) == Some(value) && value != ""
    requires IsScanned(tokens[1..], e - 1, WithValue(seen, s, value), rest)
    ensures IsScanned(tokens, e, seen, Prepend(out, rest))
  {
    NativeCons(tokens, e);
    TakeOne(tokens, e, s, value);
    SkipOne(tokens, e, ValueOf(seen, Other(s)), Other(s));
    hide Names, IsNative, IsAddable, IsAdded, HasNative, ValueAt;
  }

  function Other(s: Selector): Selector {
    match s
    case ConfigSelector => EnvironmentSelector
    case EnvironmentSelector => ConfigSelector
  }

  lemma ScannedStop(tokens: seq<string>, e: nat, seen: Arguments, s: Selector, error: Error)
    requires 0 < e <= |tokens| && Names(tokens[0], s)
    requires ValueOf(seen, s).Some? || !IsValue(ValueAt(tokens, 0, s))
    ensures IsScanned(tokens, e, seen, Err(error))
  {
    StopOne(tokens, e, ValueOf(seen, s), s);
    hide Names, ValueAt, IsAddable;
  }

  lemma OneSelector(token: string, s: Selector)
    requires Names(token, s)
    ensures !Names(token, Other(s)) && Trim(token) != "--"
    ensures !IsNative(token)
    ensures !(IsBare(token, s) && IsEquals(token, s))
  {
    SelectorForms(token, s);
    SelectorForms(token, Other(s));
    NativeForms(token);
    NotNative(SingleDash(Trim(token)));
    hide Names, IsNative, Trim;
    if IsEquals(token, s) && IsBare(token, s) {
      assert false;
    }
  }

  lemma NotNative(t: string)
    ensures IsSwitch(t, "-config") || IsSwitch(t, "-environment") ==> !IsSwitch(t, "-user-data-dir")
  {
    assert "-config"[1] == 'c' && "-environment"[1] == 'e' && "-user-data-dir"[1] == 'u';
    forall name | |name| > 1 && IsSwitch(t, name)
      ensures t[1] == name[1]
    {
      assert t == name || t[..|name|][1] == t[1];
    }
  }

  /** A selector whose value is the next token. */
  lemma ScannedTakeNext(tokens: seq<string>, e: nat, seen: Arguments, s: Selector, out: string, rest: Result<Arguments, Error>)
    requires 2 <= e <= |tokens| && Names(tokens[0], s) && ValueOf(seen, s) == None
    requires ValueAt(tokens, 0, s) == Some(tokens[1]) && tokens[1] != "" && !StartsWith(Trim(tokens[1]), "-")
    requires IsScanned(tokens[2..], e - 2, WithValue(seen, s, tokens[1]), rest)
    ensures IsScanned(tokens, e, seen, Prepend(out, rest))
  {
    hide IsScanned, Names, IsNative, ValueAt, Trim, StartsWith, Prepend;
    var t, next := tokens[1..], WithValue(seen, s, tokens[1]);
    assert t[0] == tokens[1] && t[1..] == tokens[2..];
    OneSelector(tokens[0], s);
    ValuesNameNothing(t[0]);
    ScannedSkip(t, e - 1, next, rest);
    ScannedTake(tokens, e, seen, s, tokens[1], out, Prepend(t[0], rest));
    PrependTwice(tokens, e, seen, out, t[0], rest);
  }

  /** Which tokens come out is another matter. */
  lemma PrependTwice(tokens: seq<string>, e: nat, seen: Arguments, out: string, other: string, rest: Result<Arguments, Error>)
    requires e <= |tokens| && IsScanned(tokens, e, seen, Prepend(out, Prepend(other, rest)))
    ensures IsScanned(tokens, e, seen, Prepend(out, rest))
  {
    hide IsAddable, IsAdded, HasNative;
  }

  lemma SecondInside(tokens: seq<string>, e: nat)
    requires IsEnd(tokens, e) && e > 0 && |tokens| > 1 && !StartsWith(Trim(tokens[1]), "-")
    ensures e >= 2 && IsEnd(tokens[2..], e - 2)
  {
    assert StartsWith("--", "-");
    EndCons(tokens, e);
    EndCons(tokens[1..], e - 1);
    assert tokens[1..][1..] == tokens[2..];
  }

  /* The scan at a selector, in terms of its value. */

  lemma ScanStops(tokens: seq<string>, seen: Arguments, s: Selector)
    requires tokens != [] && Trim(tokens[0]) != "--" && SelectorOf(Trim(tokens[0])) == Some(s)
    requires ValueOf(seen, s).Some? || !IsValue(ValueAt(tokens, 0, s))
    ensures Scan(tokens, seen).Err?
  {
    SelectorValue(tokens, s);
    hide Trim, SelectorOf, SingleDash, Name, StartsWith, Spelled, Prepend, ValueAt, IsSwitch;
  }

  lemma ScanTakesOwn(tokens: seq<string>, seen: Arguments, s: Selector)
    requires tokens != [] && Trim(tokens[0]) != "--" && SelectorOf(Trim(tokens[0])) == Some(s)
    requires ValueOf(seen, s).None? && IsValue(ValueAt(tokens, 0, s)) && |SingleDash(Trim(tokens[0]))| > |Name(s)|
    ensures ValueAt(tokens, 0, s).Some? && ValueAt(tokens, 0, s).value != ""
    ensures var value := ValueAt(tokens, 0, s).value;
            Scan(tokens, seen) == Prepend(Spelled(s, value), Scan(tokens[1..], WithValue(seen, s, value)))
  {
    SelectorValue(tokens, s);
    hide Trim, SelectorOf, SingleDash, Name, StartsWith, Spelled, Prepend, ValueAt, IsSwitch;
  }

  lemma ScanTakesNext(tokens: seq<string>, seen: Arguments, s: Selector)
    requires tokens != [] && Trim(tokens[0]) != "--" && SelectorOf(Trim(tokens[0])) == Some(s)
    requires ValueOf(seen, s).None? && IsValue(ValueAt(tokens, 0, s)) && |SingleDash(Trim(tokens[0]))| <= |Name(s)|
    ensures |tokens| > 1 && ValueAt(tokens, 0, s) == Some(tokens[1]) && tokens[1] != "" && !StartsWith(Trim(tokens[1]), "-")
    ensures Scan(tokens, seen) == Prepend(Spelled(s, tokens[1]), Scan(tokens[2..], WithValue(seen, s, tokens[1])))
  {
    SelectorValue(tokens, s);
    hide Trim, SelectorOf, SingleDash, Name, StartsWith, Spelled, Prepend, ValueAt, IsSwitch;
  }

  lemma SelectorStep(tokens: seq<string>, e: nat, seen: Arguments, s: Selector)
    requires tokens != [] && 0 < e <= |tokens| && IsEnd(tokens, e)
    requires Trim(tokens[0]) != "--" && SelectorOf(Trim(tokens[0])) == Some(s)
    ensures IsScanned(tokens, e, seen, Scan(tokens, seen))
    decreases |tokens|, 0
  {
    hide *;
    EndCons(tokens, e);
    SelectorForms(tokens[0], s);
    OneSelector(tokens[0], s);
    if ValueOf(seen, s).Some? || !IsValue(ValueAt(tokens, 0, s)) {
      ScanStops(tokens, seen, s);
      ScannedStop(tokens, e, seen, s, Scan(tokens, seen).error);
    } else if |SingleDash(Trim(tokens[0]))| > |Name(s)| {
      ScanTakesOwn(tokens, seen, s);
      var next := WithValue(seen, s, ValueAt(tokens, 0, s).value);
      ScanExactly(tokens[1..], e - 1, next);
      ScannedTake(tokens, e, seen, s, ValueAt(tokens, 0, s).value, Spelled(s, ValueAt(tokens, 0, s).value),
                  Scan(tokens[1..], next));
    } else {
      ScanTakesNext(tokens, seen, s);
      SecondInside(tokens, e);
      var next := WithValue(seen, s, tokens[1]);
      ScanExactly(tokens[2..], e - 2, next);
      ScannedTakeNext(tokens, e, seen, s, Spelled(s, tokens[1]), Scan(tokens[2..], next));
    }
  }

  lemma ScanAtOther(tokens: seq<string>, seen: Arguments)
    requires tokens != [] && Trim(tokens[0]) != "--" && SelectorOf(Trim(tokens[0])) == None
    ensures !Names(tokens[0], ConfigSelector) && !Names(tokens[0], EnvironmentSelector)
    ensures Scan(tokens, seen) ==
            Prepend(tokens[0], Scan(tokens[1..], if IsNative(tokens[0]) then seen.(hasUserDataDir := true) else seen))
  {
    SelectorForms(tokens[0], ConfigSelector);
    SelectorForms(tokens[0], EnvironmentSelector);
    NativeForms(tokens[0]);
    hide Trim, SelectorOf, SingleDash, Names, IsNative, IsSwitch, Prepend;
  }

  lemma {:induction false} ScanExactly(tokens: seq<string>, e: nat, seen: Arguments)
    requires IsEnd(tokens, e)
    ensures IsScanned(tokens, e, seen, Scan(tokens, seen))
    decreases |tokens|, 1
  {
    if e == 0 {
      NoTokens(tokens, seen.config, ConfigSelector);
      NoTokens(tokens, seen.environment, EnvironmentSelector);
      hide IsAddable, IsAdded, HasNative;
    } else {
      EndCons(tokens, e);
      hide SelectorOf, Scan, IsScanned, IsNative, Trim;
      match SelectorOf(Trim(tokens[0]))
      case None =>
        var next := if IsNative(tokens[0]) then seen.(hasUserDataDir := true) else seen;
        ScanAtOther(tokens, seen);
        ScanExactly(tokens[1..], e - 1, next);
        ScannedSkip(tokens, e, seen, Scan(tokens[1..], next));
      case Some(s) => SelectorStep(tokens, e, seen, s);
    }
  }

  /** The program's two ways to a value. */
  lemma SelectorValue(tokens: seq<string>, s: Selector)
    requires tokens != [] && SelectorOf(Trim(tokens[0])) == Some(s)
    ensures var short := SingleDash(Trim(tokens[0]));
            if |short| > |Name(s)| then ValueAt(tokens, 0, s) == Some(short[|Name(s)| + 1..])
            else if |tokens| == 1 || StartsWith(Trim(tokens[1]), "-") then ValueAt(tokens, 0, s) == None
            else ValueAt(tokens, 0, s) == Some(tokens[1])
  {
    SelectorForms(tokens[0], s);
    hide Trim, SelectorOf, SingleDash, AfterEquals, IsEquals, IsBare, Name, StartsWith;
  }

  lemma FindTerminator(tokens: seq<string>) returns (e: nat)
    ensures IsEnd(tokens, e)
  {
    e := 0;
    while e < |tokens| && Trim(tokens[e]) != "--"
      invariant e <= |tokens| && forall i :: 0 <= i < e ==> Trim(tokens[i]) != "--"
    {
      e := e + 1;
    }
  }

  /** Exactly which command lines are accepted, and what is found in them. A first terminator, at e, ends the
      switches; before it every selector must have a nonempty value and may occur once, in either form
      and with one or two dashes; no token may hold a NUL. */
  lemma NormalizedExactly(argv: seq<string>, e: nat)
    requires argv != [] && IsEnd(argv[1..], e)
    ensures Normalized(argv).Ok? <==>
            && argv[0] != "" && (forall i :: 0 <= i < |argv| ==> '\0' !in argv[i])
            && IsFine(argv[1..], e, ConfigSelector) && IsFine(argv[1..], e, EnvironmentSelector)
    ensures Normalized(argv).Ok? ==>
              var r := Normalized(argv).value;
              && IsFound(argv[1..], e, ConfigSelector, r.config) && IsFound(argv[1..], e, EnvironmentSelector, r.environment)
              && (r.hasUserDataDir <==> HasNative(argv[1..], e))
              && r.argv != [] && r.argv[0] == argv[0]
              && (r.config.Some? ==> "--config=" + r.config.value in r.argv)
              && (r.environment.Some? ==> "--environment=" + r.environment.value in r.argv)
  {
    ScanExactly(argv[1..], e, NOTHING_SEEN);
    if Normalized(argv).Ok? { ValuesAreOut(argv); }
    hide Scan, IsFine, IsFound, HasNative, Occurs;
  }

  lemma SpelledForms(value: string)
    ensures Spelled(ConfigSelector, value) == "--config=" + value
    ensures Spelled(EnvironmentSelector, value) == "--environment=" + value
  {
  }

  lemma ScanIsIn(argv: seq<string>)
    requires Normalized(argv).Ok?
    ensures argv != [] && Scan(argv[1..], NOTHING_SEEN).Ok?
    ensures var r, found := Normalized(argv).value, Scan(argv[1..], NOTHING_SEEN).value;
            r.config == found.config && r.environment == found.environment && forall t :: t in found.argv ==> t in r.argv
  {
    hide Scan, HasNul;
  }

  lemma ValuesAreOut(argv: seq<string>)
    requires Normalized(argv).Ok?
    ensures var r := Normalized(argv).value;
            && (r.config.Some? ==> "--config=" + r.config.value in r.argv)
            && (r.environment.Some? ==> "--environment=" + r.environment.value in r.argv)
  {
    hide Scan, Normalized, Spelled;
    ScanIsIn(argv);
    var r := Normalized(argv).value;
    SpelledIsOut(argv[1..], NOTHING_SEEN, ConfigSelector);
    SpelledIsOut(argv[1..], NOTHING_SEEN, EnvironmentSelector);
    if r.config.Some? { SpelledForms(r.config.value); }
    if r.environment.Some? { SpelledForms(r.environment.value); }
  }

  lemma {:induction false} SpelledIsOut(tokens: seq<string>, seen: Arguments, s: Selector)
    requires Scan(tokens, seen).Ok? && ValueOf(seen, s) == None
    ensures ValueOf(Scan(tokens, seen).value, s).Some? ==>
              Spelled(s, ValueOf(Scan(tokens, seen).value, s).value) in Scan(tokens, seen).value.argv
    decreases |tokens|
  {
    hide Trim, IsSwitch, StartsWith, SelectorOf, SingleDash, Spelled;
    if tokens != [] && Trim(tokens[0]) != "--" {
      var token := Trim(tokens[0]);
      match SelectorOf(token)
      case None =>
        var next := if IsSwitch(SingleDash(token), "-user-data-dir") then seen.(hasUserDataDir := true) else seen;
        SpelledIsOut(tokens[1..], next, s);
      case Some(u) =>
        var own := |SingleDash(token)| > |Name(u)|;
        var value := if own then SingleDash(token)[|Name(u)| + 1..] else tokens[1];
        var rest := if own then tokens[1..] else tokens[2..];
        if u == s {
          ScanKeepsSeen(rest, WithValue(seen, u, value), s);
        } else {
          SpelledIsOut(rest, WithValue(seen, u, value), s);
        }
    }
  }

  /* The Chrome adapter. */

  /** Boundary whitespace is whitespace at either end. */
  lemma BoundaryExactly(s: string)
    ensures HasBoundaryWhitespace(s) <==> s != "" && (IsWhite(s[0]) || IsWhite(s[|s| - 1]))
  {
    var a, b := TrimExactly(s);
    TrimLeftShorter(s);
    TrimRightShorter(TrimLeft(s));
    if Trim(s) != s && s != "" {
      assert a != "" || b != "";
      assert a != "" ==> a[0] == s[0];
      assert b != "" ==> b[|b| - 1] == s[|s| - 1];
    }
  }

  /** The value after the '=' as it was typed: with what whitespace follows it. */
  function TypedValue(token: string): string {
    var e := Find(TrimLeft(token), '=');
    if e == |TrimLeft(token)| then "" else TrimLeft(token)[e + 1..]
  }

  /** The value of the selector at i, if it has one, has no whitespace at its ends as it was typed. */
  predicate IsCleanAt(tokens: seq<string>, i: nat)
    requires i < |tokens|
  {
    forall s ::
      && (IsEquals(tokens[i], s) ==> !HasBoundaryWhitespace(TypedValue(tokens[i])))
      && (IsBare(tokens[i], s) && i + 1 < |tokens| ==> !HasBoundaryWhitespace(tokens[i + 1]))
  }

  /** A form that a token starts with before and after its end is trimmed. */
  lemma TypedForm(token: string, form: string)
    requires form != "" && form[|form| - 1] == '=' && forall i :: 0 <= i < |form| - 1 ==> form[i] != '='
    ensures StartsWith(TrimLeft(token), form) <==> StartsWith(Trim(token), form)
    ensures StartsWith(Trim(token), form) ==>
              && TypedValue(token) == TrimLeft(token)[|form|..]
              && AfterEquals(token) == TrimRight(TypedValue(token))
  {
    hide Find;
    var t := TrimLeft(token);
    if StartsWith(t, form) {
      var rest := t[|form|..];
      FormCut(t, form);
      TrimRightAfter(form, rest);
      FirstEquals(form, rest);
      FirstEquals(form, TrimRight(rest));
    }
    if StartsWith(Trim(token), form) {
      var b := TrimRightCuts(t);
      assert t[..|form|] == Trim(token)[..|form|];
    }
  }

  lemma FormCut(t: string, form: string)
    requires StartsWith(t, form)
    ensures t == form + t[|form|..]
  {
  }

  lemma FirstEquals(form: string, rest: string)
    requires form != "" && form[|form| - 1] == '=' && forall i :: 0 <= i < |form| - 1 ==> form[i] != '='
    ensures Find(form + rest, '=') == |form| - 1 && (form + rest)[|form|..] == rest && StartsWith(form + rest, form)
  {
    FindAt(form + rest, '=', |form| - 1);
  }

  /** What the adapter looks for in the tokens it was given. */
  lemma HidesExactly(token: string)
    ensures HidesWhitespace(token) <==> exists s :: IsEquals(token, s) && HasBoundaryWhitespace(TypedValue(token))
  {
    var n := |EQUALS_FORMS|;
    assert n == 4;
    FormEnds();
    hide TrimLeft, Trim, HasBoundaryWhitespace, TypedValue, AfterEquals, StartsWith;
    TypedForm(token, EQUALS_FORMS[0]);
    TypedForm(token, EQUALS_FORMS[1]);
    TypedForm(token, EQUALS_FORMS[2]);
    TypedForm(token, EQUALS_FORMS[3]);
    assert IsEquals(token, ConfigSelector) <==>
           StartsWith(Trim(token), EQUALS_FORMS[0]) || StartsWith(Trim(token), EQUALS_FORMS[1]);
    assert IsEquals(token, EnvironmentSelector) <==>
           StartsWith(Trim(token), EQUALS_FORMS[2]) || StartsWith(Trim(token), EQUALS_FORMS[3]);
  }

  lemma FormEnds()
    ensures forall k :: 0 <= k < 4 ==>
              var form := EQUALS_FORMS[k];
              form != "" && form[|form| - 1] == '=' && forall i :: 0 <= i < |form| - 1 ==> form[i] != '='
  {
  }

  lemma {:induction false} ShownExactly(tokens: seq<string>, e: nat)
    requires IsEnd(tokens, e)
    ensures AllShown(tokens) <==> forall i :: 0 <= i < e ==> !HidesWhitespace(tokens[i])
    decreases |tokens|
  {
    hide HidesWhitespace;
    if tokens != [] {
      TrimLeftTwice(tokens[0]);
      if e > 0 {
        EndCons(tokens, e);
        ShownExactly(tokens[1..], e - 1);
        assert forall i :: 0 <= i < |tokens| - 1 ==> tokens[1..][i] == tokens[i + 1];
        assert forall i :: 0 < i < e ==> tokens[i] == tokens[1..][i - 1];
      }
    }
  }

  lemma TrimLeftTwice(s: string)
    ensures Trim(TrimLeft(s)) == Trim(s)
  {
    var a := TrimLeftCuts(s);
  }

  lemma ExtraExactly(extra: seq<string>, e: nat, extraHasType: bool)
    requires extra != [] && IsEnd(extra[1..], e)
    ensures ExtraIsClear(extra, extraHasType) <==>
            && !extraHasType && (forall i :: 1 <= i < |extra| ==> '\0' !in extra[i])
            && forall i :: 0 <= i < e ==> !IsNative(extra[1..][i]) && forall s :: !Names(extra[1..][i], s)
  {
    var argv := ["CHROME_EXTRA_FLAGS"] + extra[1..];
    var t := extra[1..];
    assert argv[1..] == t;
    assert '\0' !in "CHROME_EXTRA_FLAGS";
    NormalizedExactly(argv, e);
    hide Names, IsNative, ValueAt, Normalized;
    assert (forall i :: 0 <= i < |argv| ==> '\0' !in argv[i]) <==> (forall i :: 1 <= i < |extra| ==> '\0' !in extra[i]) by {
      assert forall i :: 1 <= i < |extra| ==> argv[i] == extra[i];
    }
    NothingFound(t, e, ConfigSelector);
    NothingFound(t, e, EnvironmentSelector);
    hide IsFine, IsFound;
  }

  lemma NothingFound(tokens: seq<string>, e: nat, s: Selector)
    requires e <= |tokens|
    ensures IsFine(tokens, e, s) && IsFound(tokens, e, s, None) <==> forall i :: 0 <= i < e ==> !Names(tokens[i], s)
  {
    hide Names, Trim, StartsWith, AfterEquals;
  }

  /** Exactly which browser command lines the adapter lets through: those that normalise, whose selector values
      have no whitespace at their ends as they were typed, and beside which the extra flags name no selector,
      no root and no process type. */
  lemma AcceptedExactly(raw: seq<string>, e: nat, extra: seq<string>, d: nat, extraHasType: bool)
    requires raw != [] && IsEnd(raw[1..], e) && (extra != [] ==> IsEnd(extra[1..], d))
    ensures Normalized(raw).Ok? ==>
              (&& IsClean(Normalized(raw).value.config) && IsClean(Normalized(raw).value.environment)
               && AllShown(raw[1..]) && ExtraIsClear(extra, extraHasType)
               <==>
               && (forall i :: 0 <= i < e ==> IsCleanAt(raw[1..], i))
               && extra != [] && !extraHasType && (forall i :: 1 <= i < |extra| ==> '\0' !in extra[i])
               && forall i :: 0 <= i < d ==> !IsNative(extra[1..][i]) && forall s :: !Names(extra[1..][i], s))
  {
    if Normalized(raw).Ok? {
      NormalizedExactly(raw, e);
      ShownExactly(raw[1..], e);
      TypedClean(raw[1..], e, Normalized(raw).value);
      if extra != [] { ExtraExactly(extra, d, extraHasType); }
      hide *;
    }
  }

  lemma EqualsTyped(token: string, s: Selector)
    requires IsEquals(token, s)
    ensures AfterEquals(token) == TrimRight(TypedValue(token))
  {
    FormEnds();
    hide TrimLeft, TrimRight, Trim, TypedValue, AfterEquals, StartsWith;
    TypedForm(token, EQUALS_FORMS[0]);
    TypedForm(token, EQUALS_FORMS[1]);
    TypedForm(token, EQUALS_FORMS[2]);
    TypedForm(token, EQUALS_FORMS[3]);
  }

  /** One selector: its value is clean as it was cut out, and as it was typed. */
  lemma CleanOne(tokens: seq<string>, e: nat, s: Selector, value: Option<string>)
    requires e <= |tokens| && IsFine(tokens, e, s) && IsFound(tokens, e, s, value)
    requires forall i :: 0 <= i < e && IsEquals(tokens[i], s) ==> !HasBoundaryWhitespace(TypedValue(tokens[i]))
    ensures IsClean(value) <==>
            forall i :: 0 <= i < e && IsBare(tokens[i], s) && i + 1 < |tokens| ==> !HasBoundaryWhitespace(tokens[i + 1])
  {
    forall i | 0 <= i < e && Names(tokens[i], s)
      ensures value == ValueAt(tokens, i, s) && value.Some?
      ensures IsBare(tokens[i], s) ==> i + 1 < |tokens| && value == Some(tokens[i + 1])
      ensures IsEquals(tokens[i], s) ==> IsClean(value)
    {
      OneSelector(tokens[i], s);
      if IsEquals(tokens[i], s) {
        EqualsTyped(tokens[i], s);
        UntrimmedEnd(TypedValue(tokens[i]));
      }
      hide HasBoundaryWhitespace, TypedValue, AfterEquals, IsEquals, IsBare, Trim, StartsWith;
    }
    hide HasBoundaryWhitespace, TypedValue, ValueAt, IsEquals, IsBare, IsFine;
  }

  /** The values that selector s has at i are clean. */
  predicate IsCleanFor(tokens: seq<string>, i: nat, s: Selector)
    requires i < |tokens|
  {
    && (IsEquals(tokens[i], s) ==> !HasBoundaryWhitespace(TypedValue(tokens[i])))
    && (IsBare(tokens[i], s) && i + 1 < |tokens| ==> !HasBoundaryWhitespace(tokens[i + 1]))
  }

  lemma HiddenAt(tokens: seq<string>, i: nat)
    requires i < |tokens|
    ensures IsCleanAt(tokens, i) <==> IsCleanFor(tokens, i, ConfigSelector) && IsCleanFor(tokens, i, EnvironmentSelector)
    ensures IsCleanAt(tokens, i) ==> !HidesWhitespace(tokens[i])
    ensures !HidesWhitespace(tokens[i]) ==> forall s :: IsEquals(tokens[i], s) ==> !HasBoundaryWhitespace(TypedValue(tokens[i]))
  {
    HidesExactly(tokens[i]);
    hide HidesWhitespace, IsEquals, IsBare, HasBoundaryWhitespace, TypedValue;
    if IsCleanFor(tokens, i, ConfigSelector) && IsCleanFor(tokens, i, EnvironmentSelector) {
      forall s
        ensures IsCleanFor(tokens, i, s)
      {
        match s
        case ConfigSelector =>
        case EnvironmentSelector =>
      }
    }
  }

  lemma EndIsInside(tokens: seq<string>, e: nat)
    requires IsEnd(tokens, e)
    ensures e <= |tokens|
  {
  }

  lemma TypedClean(tokens: seq<string>, e: nat, r: Arguments)
    requires IsEnd(tokens, e) && IsFine(tokens, e, ConfigSelector) && IsFine(tokens, e, EnvironmentSelector)
    requires IsFound(tokens, e, ConfigSelector, r.config) && IsFound(tokens, e, EnvironmentSelector, r.environment)
    ensures IsClean(r.config) && IsClean(r.environment) && (forall i :: 0 <= i < e ==> !HidesWhitespace(tokens[i])) <==>
            forall i :: 0 <= i < e ==> IsCleanAt(tokens, i)
  {
    hide HidesWhitespace, IsEquals, IsBare, HasBoundaryWhitespace, TypedValue, IsFine, IsFound, IsClean, IsCleanAt, IsEnd;
    assert e <= |tokens| by { EndIsInside(tokens, e); }
    forall i | 0 <= i < e
      ensures IsCleanAt(tokens, i) <==> IsCleanFor(tokens, i, ConfigSelector) && IsCleanFor(tokens, i, EnvironmentSelector)
      ensures IsCleanAt(tokens, i) ==> !HidesWhitespace(tokens[i])
      ensures !HidesWhitespace(tokens[i]) ==> forall s :: IsEquals(tokens[i], s) ==> !HasBoundaryWhitespace(TypedValue(tokens[i]))
    {
      HiddenAt(tokens, i);
    }
    if forall i :: 0 <= i < e ==> !HidesWhitespace(tokens[i]) {
      CleanOne(tokens, e, ConfigSelector, r.config);
      CleanOne(tokens, e, EnvironmentSelector, r.environment);
    }
  }
}
