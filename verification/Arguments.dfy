/** Normalisation of the product's command-line selectors, and the Chrome adapter around it. */
module Arguments {

  import opened Strings
  import opened Wrappers

  /* Trimming. */

  /** Space, tab, newline, vertical tab, form feed, carriage return. */
  predicate IsWhite(c: char) {
    c as int == 0x20 || 9 <= c as int <= 13
  }

  function TrimLeft(s: string): string {
    if s != "" && IsWhite(s[0]) then TrimLeft(s[1..]) else s
  }

  function TrimRight(s: string): string {
    if s != "" && IsWhite(s[|s| - 1]) then TrimRight(s[..|s| - 1]) else s
  }

  /** SwitchToken. */
  function Trim(s: string): string {
    TrimRight(TrimLeft(s))
  }

  predicate HasBoundaryWhitespace(s: string) {
    Trim(s) != s
  }

  lemma {:induction false} TrimRightAfter(a: string, b: string)
    requires a != "" && !IsWhite(a[|a| - 1])
    ensures TrimRight(a + b) == a + TrimRight(b)
    decreases |b|
  {
    if b != "" && IsWhite(b[|b| - 1]) {
      assert (a + b)[..|a + b| - 1] == a + b[..|b| - 1];
      TrimRightAfter(a, b[..|b| - 1]);
    } else if b == "" {
      assert a + b == a;
    }
  }

  lemma TrimRightShorter(s: string)
    ensures |TrimRight(s)| <= |s|
    ensures TrimRight(s) == s <==> s == "" || !IsWhite(s[|s| - 1])
  {
    if s != "" && IsWhite(s[|s| - 1]) {
      TrimRightShorter(s[..|s| - 1]);
    }
  }

  /** Text without boundary whitespace does not end in whitespace. */
  lemma {:induction false} UntrimmedEnd(s: string)
    requires !HasBoundaryWhitespace(s)
    ensures TrimRight(s) == s
  {
    TrimLeftShorter(s);
    TrimRightShorter(TrimLeft(s));
  }

  lemma TrimLeftShorter(s: string)
    ensures |TrimLeft(s)| <= |s|
    ensures |TrimLeft(s)| == |s| ==> TrimLeft(s) == s
  {
  }

  /* Selectors. */

  datatype Selector = ConfigSelector | EnvironmentSelector

  /** The canonical single-dash name. */
  function Name(s: Selector): string {
    match s
    case ConfigSelector => "-config"
    case EnvironmentSelector => "-environment"
  }

  predicate IsSwitch(token: string, name: string) {
    token == name || (StartsWith(token, name) && |token| > |name| && token[|name|] == '=')
  }

  /** A token with Chromium's double dash reduced to one. */
  function SingleDash(token: string): string {
    if StartsWith(token, "--") then token[1..] else token
  }

  /** Which selector a trimmed token is, if any. */
  function SelectorOf(token: string): Option<Selector> {
    if IsSwitch(SingleDash(token), "-config") then Some(ConfigSelector)
    else if IsSwitch(SingleDash(token), "-environment") then Some(EnvironmentSelector)
    else None
  }

  function Spelled(s: Selector, value: string): string {
    "-" + Name(s) + "=" + value
  }

  datatype Error = MissingExecutable | EmbeddedNul | Repeated(s: Selector) | RequiresValue(s: Selector) | EmptyValue(s: Selector)

  datatype Arguments = Arguments(argv: seq<string>, config: Option<string>, environment: Option<string>,
                                 hasUserDataDir: bool)

  function ValueOf(a: Arguments, s: Selector): Option<string> {
    match s
    case ConfigSelector => a.config
    case EnvironmentSelector => a.environment
  }

  function WithValue(a: Arguments, s: Selector, value: string): Arguments {
    match s
    case ConfigSelector => a.(config := Some(value))
    case EnvironmentSelector => a.(environment := Some(value))
  }

  function Prepend(token: string, r: Result<Arguments, Error>): Result<Arguments, Error> {
    match r
    case Ok(a) => Ok(a.(argv := [token] + a.argv))
    case Err(e) => Err(e)
  }

  /** What the loop makes of the remaining tokens, given the selectors seen before them; the argv
      of the result holds the output for these tokens only. */
  function Scan(tokens: seq<string>, seen: Arguments): Result<Arguments, Error>
    decreases |tokens|
  {
    if tokens == [] then Ok(seen.(argv := []))
    else
      var token := Trim(tokens[0]);
      if token == "--" then Ok(seen.(argv := tokens))
      else
        match SelectorOf(token)
        case None =>
          Prepend(tokens[0],
                  Scan(tokens[1..],
                       if IsSwitch(SingleDash(token), "-user-data-dir") then seen.(hasUserDataDir := true) else seen))
        case Some(s) =>
          if ValueOf(seen, s).Some? then Err(Repeated(s))
          else
            var short := SingleDash(token);
            if |short| > |Name(s)| then
              var value := short[|Name(s)| + 1..];
              if value == "" then Err(EmptyValue(s)) else Prepend(Spelled(s, value), Scan(tokens[1..], WithValue(seen, s, value)))
            else if |tokens| == 1 || StartsWith(Trim(tokens[1]), "-") then Err(RequiresValue(s))
            else if tokens[1] == "" then Err(EmptyValue(s))
            else Prepend(Spelled(s, tokens[1]), Scan(tokens[2..], WithValue(seen, s, tokens[1])))
  }

  const NOTHING_SEEN := Arguments([], None, None, false)

  predicate HasNul(argv: seq<string>) {
    exists i :: 0 <= i < |argv| && '\0' in argv[i]
  }

  function Normalized(argv: seq<string>): Result<Arguments, Error> {
    if argv == [] || argv[0] == "" then Err(MissingExecutable)
    else if HasNul(argv) then Err(EmbeddedNul)
    else Prepend(argv[0], Scan(argv[1..], NOTHING_SEEN))
  }

  /** The state of the loop: argv is the output so far. */
  function Combined(before: Arguments, rest: Result<Arguments, Error>): Result<Arguments, Error> {
    match rest
    case Ok(a) => Ok(a.(argv := before.argv + a.argv))
    case Err(e) => Err(e)
  }

  lemma ScanIgnoresOutput(tokens: seq<string>, seen: Arguments, argv: seq<string>)
    ensures Scan(tokens, seen.(argv := argv)) == Scan(tokens, seen)
    decreases |tokens|
  {
    if tokens != [] {
      var token := Trim(tokens[0]);
      match SelectorOf(token)
      case None =>
        ScanIgnoresOutput(tokens[1..],
                          if IsSwitch(SingleDash(token), "-user-data-dir") then seen.(hasUserDataDir := true) else seen, argv);
      case Some(s) =>
        if |SingleDash(token)| > |Name(s)| {
          ScanIgnoresOutput(tokens[1..], WithValue(seen, s, SingleDash(token)[|Name(s)| + 1..]), argv);
        } else if |tokens| > 1 {
          ScanIgnoresOutput(tokens[2..], WithValue(seen, s, tokens[1]), argv);
        }
    }
  }

  lemma CombineStep(before: Arguments, token: string, seen: Arguments, rest: Result<Arguments, Error>)
    requires seen.argv == before.argv + [token]
    ensures Combined(before, Prepend(token, rest)) == Combined(seen, rest)
  {
    if rest.Ok? {
      assert before.argv + ([token] + rest.value.argv) == before.argv + [token] + rest.value.argv;
    }
  }

  method FindNul(argv: seq<string>) returns (found: bool)
    ensures found <==> HasNul(argv)
  {
    for i := 0 to |argv|
      invariant forall j :: 0 <= j < i ==> '\0' !in argv[j]
    {
      if '\0' in argv[i] { return true; }
    }
    return false;
  }

  /** NormalizeStartupArguments. */
  method NormalizeStartupArguments(argv: seq<string>) returns (r: Result<Arguments, Error>)
    ensures r == Normalized(argv)
  {
    hide Scan, Trim, IsSwitch, StartsWith, SelectorOf, Combined, SingleDash, Spelled, Name, HasNul;
    if argv == [] || argv[0] == "" { return Err(MissingExecutable); }
    var nul := FindNul(argv);
    if nul { return Err(EmbeddedNul); }
    var result := Arguments([argv[0]], None, None, false);
    ghost var all := Combined(result, Scan(argv[1..], result));
    StartOfScan(argv);
    var switches := true;
    var index := 1;
    while index < |argv|
      invariant 1 <= index <= |argv|
      invariant if switches then Combined(result, Scan(argv[index..], result)) == all
                else all == Ok(result.(argv := result.argv + argv[index..]))
      decreases |argv| - index
    {
      var token := Trim(argv[index]);
      ghost var rest := argv[index..];
      assert rest[0] == argv[index] && rest[1..] == argv[index + 1..];
      if token == "--" {
        if switches {
          ScanAtTerminator(result, rest);
        }
        switches := false;
      }
      if !switches {
        CopyStep(result.argv, argv, index);
        result := result.(argv := result.argv + [argv[index]]);
        index := index + 1;
        continue;
      }
      ScanStep(result, rest);
      var selector := SelectorOf(token);
      var short := SingleDash(token);
      if selector == None {
        if IsSwitch(short, "-user-data-dir") {
          result := result.(hasUserDataDir := true);
        }
        result := result.(argv := result.argv + [argv[index]]);
        index := index + 1;
        continue;
      }
      var s := selector.value;
      if ValueOf(result, s).Some? { return Err(Repeated(s)); }
      var value;
      if |short| > |Name(s)| {
        value := short[|Name(s)| + 1..];
      } else {
        if index + 1 == |argv| || StartsWith(Trim(argv[index + 1]), "-") { return Err(RequiresValue(s)); }
        index := index + 1;
        value := argv[index];
        assert rest[1] == value && rest[2..] == argv[index + 1..];
      }
      if value == "" { return Err(EmptyValue(s)); }
      result := WithValue(result, s, value).(argv := result.argv + [Spelled(s, value)]);
      index := index + 1;
    }
    assert argv[index..] == [] && result.argv + [] == result.argv;
    ScanAtEnd(result);
    return Ok(result);
  }

  lemma CopyStep(out: seq<string>, argv: seq<string>, index: nat)
    requires index < |argv|
    ensures out + argv[index..] == out + [argv[index]] + argv[index + 1..]
  {
  }

  lemma StartOfScan(argv: seq<string>)
    requires argv != []
    ensures var start := Arguments([argv[0]], None, None, false);
            Combined(start, Scan(argv[1..], start)) == Prepend(argv[0], Scan(argv[1..], NOTHING_SEEN))
  {
    ScanIgnoresOutput(argv[1..], NOTHING_SEEN, [argv[0]]);
  }

  lemma ScanAtEnd(result: Arguments)
    ensures Combined(result, Scan([], result)) == Ok(result)
  {
    assert result.argv + [] == result.argv;
  }

  lemma ScanAtTerminator(result: Arguments, rest: seq<string>)
    requires rest != [] && Trim(rest[0]) == "--"
    ensures Combined(result, Scan(rest, result)) == Ok(result.(argv := result.argv + rest))
  {
  }

  /** One iteration of the loop, before the terminator. */
  lemma ScanStep(result: Arguments, rest: seq<string>)
    requires rest != [] && Trim(rest[0]) != "--"
    ensures var token := Trim(rest[0]);
            var short := SingleDash(token);
            var whole := Combined(result, Scan(rest, result));
            match SelectorOf(token)
            case None =>
              var next := (if IsSwitch(short, "-user-data-dir") then result.(hasUserDataDir := true) else result)
                            .(argv := result.argv + [rest[0]]);
              whole == Combined(next, Scan(rest[1..], next))
            case Some(s) =>
              if ValueOf(result, s).Some? then whole == Err(Repeated(s))
              else if |short| > |Name(s)| then
                var value := short[|Name(s)| + 1..];
                var next := WithValue(result, s, value).(argv := result.argv + [Spelled(s, value)]);
                whole == if value == "" then Err(EmptyValue(s)) else Combined(next, Scan(rest[1..], next))
              else if |rest| == 1 || StartsWith(Trim(rest[1]), "-") then whole == Err(RequiresValue(s))
              else
                var next := WithValue(result, s, rest[1]).(argv := result.argv + [Spelled(s, rest[1])]);
                whole == if rest[1] == "" then Err(EmptyValue(s)) else Combined(next, Scan(rest[2..], next))
  {
    hide Trim, IsSwitch, StartsWith, Combined, Prepend, Spelled;
    var token := Trim(rest[0]);
    var short := SingleDash(token);
    match SelectorOf(token)
    case None =>
      var seen := if IsSwitch(short, "-user-data-dir") then result.(hasUserDataDir := true) else result;
      var next := seen.(argv := result.argv + [rest[0]]);
      ScanIgnoresOutput(rest[1..], seen, next.argv);
      CombineStep(result, rest[0], next, Scan(rest[1..], seen));
    case Some(s) =>
      CombineError(result);
      if |short| > |Name(s)| {
        var value := short[|Name(s)| + 1..];
        var next := WithValue(result, s, value).(argv := result.argv + [Spelled(s, value)]);
        ScanIgnoresOutput(rest[1..], WithValue(result, s, value), next.argv);
        CombineStep(result, Spelled(s, value), next, Scan(rest[1..], WithValue(result, s, value)));
      } else if |rest| > 1 {
        var next := WithValue(result, s, rest[1]).(argv := result.argv + [Spelled(s, rest[1])]);
        ScanIgnoresOutput(rest[2..], WithValue(result, s, rest[1]), next.argv);
        CombineStep(result, Spelled(s, rest[1]), next, Scan(rest[2..], WithValue(result, s, rest[1])));
      }
  }

  lemma CombineError(result: Arguments)
    ensures forall e :: Combined(result, Err(e)) == Err(e)
  {
  }

  /* A second pass. */

  predicate EndsClean(value: string) {
    TrimRight(value) == value
  }

  /** The selector values that r adds to seen do not end in whitespace. */
  predicate AddsClean(seen: Arguments, r: Arguments) {
    && (seen.config == None && r.config.Some? ==> EndsClean(r.config.value))
    && (seen.environment == None && r.environment.Some? ==> EndsClean(r.environment.value))
  }

  lemma NameParts(s: Selector)
    ensures |Name(s)| > 2 && Name(s)[0] == '-' && Name(s)[1] == if s == ConfigSelector then 'c' else 'e'
  {
  }

  lemma TrimSpelled(s: Selector, value: string)
    ensures Trim(Spelled(s, value)) == Spelled(s, TrimRight(value))
  {
    NameParts(s);
    hide Name, TrimRight;
    var head := "-" + Name(s) + "=";
    assert head[0] == '-' && head[|head| - 1] == '=';
    assert Spelled(s, value) == head + value && Spelled(s, TrimRight(value)) == head + TrimRight(value);
    assert TrimLeft(head + value) == head + value;
    TrimRightAfter(head, value);
  }

  lemma SpelledParts(s: Selector, value: string)
    ensures var token := Spelled(s, value);
            && |token| > 2 && SingleDash(token) == Name(s) + "=" + value && IsSwitch(SingleDash(token), Name(s))
            && SingleDash(token)[|Name(s)| + 1..] == value
  {
    NameParts(s);
    hide Name;
    var token := Spelled(s, value);
    assert token[..2] == "--" && token[1..] == Name(s) + "=" + value;
    assert token[1..][..|Name(s)|] == Name(s);
  }

  lemma SelectorOfName(s: Selector, token: string)
    requires IsSwitch(SingleDash(token), Name(s))
    ensures SelectorOf(token) == Some(s)
  {
    var t := SingleDash(token);
    if s == EnvironmentSelector {
      assert t[1] == 'e' by { assert t == Name(s) || t[..|Name(s)|][1] == t[1]; }
      assert "-config"[1] == 'c';
      assert |t| >= 7 ==> t[..7][1] == t[1];
    }
  }

  /** How the canonical spelling of a selector reads back: trailing whitespace is gone. */
  lemma SpelledReadsBack(s: Selector, value: string)
    requires value != ""
    ensures var token := Trim(Spelled(s, value));
            && token != "--" && token == Spelled(s, TrimRight(value)) && SelectorOf(token) == Some(s)
            && |SingleDash(token)| > |Name(s)| && SingleDash(token)[|Name(s)| + 1..] == TrimRight(value)
  {
    hide Trim, TrimRight, Spelled, SingleDash, SelectorOf, IsSwitch, Name;
    TrimSpelled(s, value);
    SpelledParts(s, TrimRight(value));
    SelectorOfName(s, Spelled(s, TrimRight(value)));
  }

  lemma SpelledDiffers(s: Selector, v: string, w: string)
    ensures Spelled(s, v) == Spelled(s, w) ==> v == w
  {
    assert Spelled(s, v)[|Name(s)| + 2..] == v && Spelled(s, w)[|Name(s)| + 2..] == w;
  }

  lemma PrependOk(token: string, r: Result<Arguments, Error>, a: Arguments)
    requires a.argv != []
    ensures Prepend(token, r) == Ok(a) <==> token == a.argv[0] && r == Ok(a.(argv := a.argv[1..]))
  {
    if r.Ok? {
      assert ([token] + r.value.argv)[1..] == r.value.argv;
    }
    assert a.argv == [a.argv[0]] + a.argv[1..];
  }

  lemma {:induction false} ScanKeepsSeen(tokens: seq<string>, seen: Arguments, s: Selector)
    requires Scan(tokens, seen).Ok? && ValueOf(seen, s).Some?
    ensures ValueOf(Scan(tokens, seen).value, s) == ValueOf(seen, s)
    decreases |tokens|
  {
    hide Trim, IsSwitch, StartsWith;
    if tokens != [] && Trim(tokens[0]) != "--" {
      var token := Trim(tokens[0]);
      match SelectorOf(token)
      case None =>
        ScanKeepsSeen(tokens[1..],
                      if IsSwitch(SingleDash(token), "-user-data-dir") then seen.(hasUserDataDir := true) else seen, s);
      case Some(u) =>
        if |SingleDash(token)| > |Name(u)| {
          ScanKeepsSeen(tokens[1..], WithValue(seen, u, SingleDash(token)[|Name(u)| + 1..]), s);
        } else {
          ScanKeepsSeen(tokens[2..], WithValue(seen, u, tokens[1]), s);
        }
    }
  }

  /** After one selector with its value, a second pass is exact if the value ends clean and the
      rest is exact. */
  lemma SecondPassSelector(seen: Arguments, s: Selector, value: string, rest: seq<string>, r: Arguments)
    requires value != "" && ValueOf(seen, s) == None && ValueOf(r, s) == Some(value)
    requires r.argv == [Spelled(s, value)] + rest
    requires var r' := r.(argv := rest);
             Scan(rest, WithValue(seen, s, value)) == Ok(r') <==> AddsClean(WithValue(seen, s, value), r')
    ensures Scan(r.argv, seen) == Ok(r) <==> AddsClean(seen, r)
  {
    hide Trim, IsSwitch, StartsWith, TrimRight, SelectorOf, SingleDash, Spelled;
    SpelledReadsBack(s, value);
    var w := TrimRight(value);
    assert r.argv[0] == Spelled(s, value) && r.argv[1..] == rest;
    SpelledDiffers(s, w, value);
    PrependOk(Spelled(s, w), Scan(rest, WithValue(seen, s, w)), r);
    assert Scan(r.argv, seen) ==
           if w == "" then Err(EmptyValue(s)) else Prepend(Spelled(s, w), Scan(rest, WithValue(seen, s, w)));
  }

  /** Scanning what was scanned returns the same result exactly when the values end clean. */
  lemma {:induction false} SecondPass(tokens: seq<string>, seen: Arguments)
    requires Scan(tokens, seen).Ok?
    ensures var r := Scan(tokens, seen).value; Scan(r.argv, seen) == Ok(r) <==> AddsClean(seen, r)
    decreases |tokens|
  {
    hide Trim, IsSwitch, StartsWith, TrimRight, SelectorOf, SingleDash, Spelled;
    if tokens != [] && Trim(tokens[0]) != "--" {
      var token := Trim(tokens[0]);
      var r := Scan(tokens, seen).value;
      match SelectorOf(token)
      case None =>
        var next := if IsSwitch(SingleDash(token), "-user-data-dir") then seen.(hasUserDataDir := true) else seen;
        SecondPass(tokens[1..], next);
        assert r.argv[1..] == Scan(tokens[1..], next).value.argv;
        PrependOk(tokens[0], Scan(r.argv[1..], next), r);
      case Some(s) =>
        if |SingleDash(token)| > |Name(s)| {
          var value := SingleDash(token)[|Name(s)| + 1..];
          SecondPass(tokens[1..], WithValue(seen, s, value));
          ScanKeepsSeen(tokens[1..], WithValue(seen, s, value), s);
          SecondPassSelector(seen, s, value, Scan(tokens[1..], WithValue(seen, s, value)).value.argv, r);
        } else {
          SecondPass(tokens[2..], WithValue(seen, s, tokens[1]));
          ScanKeepsSeen(tokens[2..], WithValue(seen, s, tokens[1]), s);
          SecondPassSelector(seen, s, tokens[1], Scan(tokens[2..], WithValue(seen, s, tokens[1])).value.argv, r);
        }
    }
  }

  lemma {:induction false} TrimKeepsNul(s: string)
    requires '\0' !in s
    ensures '\0' !in TrimLeft(s) && '\0' !in TrimRight(s)
    decreases |s|
  {
    if s != "" {
      TrimKeepsNul(s[1..]);
      TrimKeepsNul(s[..|s| - 1]);
    }
  }

  lemma ValueKeepsNul(s: Selector, token: string, value: string)
    requires '\0' !in token
    ensures |SingleDash(Trim(token))| > |Name(s)| ==> '\0' !in Spelled(s, SingleDash(Trim(token))[|Name(s)| + 1..])
    ensures '\0' !in value ==> '\0' !in Spelled(s, value)
  {
    TrimKeepsNul(token);
    TrimKeepsNul(TrimLeft(token));
    assert '\0' !in "-" + Name(s) + "=";
  }

  lemma {:induction false} ScanKeepsNul(tokens: seq<string>, seen: Arguments)
    requires Scan(tokens, seen).Ok? && !HasNul(tokens)
    ensures !HasNul(Scan(tokens, seen).value.argv)
    decreases |tokens|
  {
    hide Trim, IsSwitch, StartsWith, SelectorOf, SingleDash, Spelled;
    if tokens != [] && Trim(tokens[0]) != "--" {
      var token := Trim(tokens[0]);
      assert !HasNul(tokens[1..]) by {
        assert forall i :: 0 <= i < |tokens[1..]| ==> tokens[1..][i] == tokens[i + 1];
      }
      match SelectorOf(token)
      case None =>
        ScanKeepsNul(tokens[1..], if IsSwitch(SingleDash(token), "-user-data-dir") then seen.(hasUserDataDir := true) else seen);
      case Some(s) =>
        if |SingleDash(token)| > |Name(s)| {
          ValueKeepsNul(s, tokens[0], "");
          ScanKeepsNul(tokens[1..], WithValue(seen, s, SingleDash(token)[|Name(s)| + 1..]));
        } else {
          ValueKeepsNul(s, tokens[0], tokens[1]);
          assert !HasNul(tokens[2..]) by {
            assert forall i :: 0 <= i < |tokens[2..]| ==> tokens[2..][i] == tokens[i + 2];
          }
          ScanKeepsNul(tokens[2..], WithValue(seen, s, tokens[1]));
        }
    }
  }

  /** In the tokens before the terminator, no selector value that is a token of its own ends in
      whitespace. A value after '=' never does, being cut from a trimmed token. */
  predicate SeparateValuesEndClean(tokens: seq<string>)
    decreases |tokens|
  {
    if tokens == [] || Trim(tokens[0]) == "--" then true
    else
      var token := Trim(tokens[0]);
      match SelectorOf(token)
      case None => SeparateValuesEndClean(tokens[1..])
      case Some(s) =>
        if |SingleDash(token)| > |Name(s)| then SeparateValuesEndClean(tokens[1..])
        else |tokens| > 1 ==> EndsClean(tokens[1]) && SeparateValuesEndClean(tokens[2..])
  }

  lemma TrimEndsClean(s: string)
    ensures TrimRight(Trim(s)) == Trim(s)
  {
    TrimRightTwice(TrimLeft(s));
  }

  lemma {:induction false} TrimRightTwice(s: string)
    ensures TrimRight(TrimRight(s)) == TrimRight(s)
  {
    if s != "" && IsWhite(s[|s| - 1]) {
      TrimRightTwice(s[..|s| - 1]);
    }
  }

  /** A nonempty tail of a text that ends clean ends clean. */
  lemma TailEndsClean(s: string, k: nat)
    requires k <= |s| && EndsClean(s)
    ensures EndsClean(s[k..])
  {
    TrimRightShorter(s);
    TrimRightShorter(s[k..]);
  }

  lemma EqualsValueEndsClean(s: Selector, raw: string)
    requires |SingleDash(Trim(raw))| > |Name(s)|
    ensures EndsClean(SingleDash(Trim(raw))[|Name(s)| + 1..])
  {
    TrimEndsClean(raw);
    var token := Trim(raw);
    hide Trim, Name, EndsClean;
    assert EndsClean(token) by { EndsCleanOf(token); }
    TailEndsClean(token, 0);
    if StartsWith(token, "--") {
      TailEndsClean(token, 1);
      TailEndsClean(token[1..], |Name(s)| + 1);
    } else {
      TailEndsClean(token, |Name(s)| + 1);
    }
  }

  lemma EndsCleanOf(s: string)
    requires TrimRight(s) == s
    ensures EndsClean(s)
  {
  }

  lemma AddedClean(seen: Arguments, s: Selector, value: string, r: Arguments)
    requires ValueOf(seen, s) == None && ValueOf(r, s) == Some(value)
    ensures AddsClean(seen, r) <==> EndsClean(value) && AddsClean(WithValue(seen, s, value), r)
  {
    hide EndsClean;
  }

  /** The condition on the result is a condition on the tokens. */
  lemma {:induction false} CleanExactly(tokens: seq<string>, seen: Arguments)
    requires Scan(tokens, seen).Ok?
    ensures AddsClean(seen, Scan(tokens, seen).value) <==> SeparateValuesEndClean(tokens)
    decreases |tokens|
  {
    hide Trim, IsSwitch, StartsWith, SelectorOf, SingleDash, EndsClean;
    if tokens != [] && Trim(tokens[0]) != "--" {
      var token := Trim(tokens[0]);
      match SelectorOf(token)
      case None =>
        CleanExactly(tokens[1..], if IsSwitch(SingleDash(token), "-user-data-dir") then seen.(hasUserDataDir := true) else seen);
      case Some(s) =>
        if |SingleDash(token)| > |Name(s)| {
          var value := SingleDash(token)[|Name(s)| + 1..];
          CleanExactly(tokens[1..], WithValue(seen, s, value));
          ScanKeepsSeen(tokens[1..], WithValue(seen, s, value), s);
          EqualsValueEndsClean(s, tokens[0]);
          AddedClean(seen, s, value, Scan(tokens[1..], WithValue(seen, s, value)).value);
        } else {
          CleanExactly(tokens[2..], WithValue(seen, s, tokens[1]));
          ScanKeepsSeen(tokens[2..], WithValue(seen, s, tokens[1]), s);
          AddedClean(seen, s, tokens[1], Scan(tokens[2..], WithValue(seen, s, tokens[1])).value);
        }
    }
  }

  /** The normaliser is idempotent on its own output exactly when no selector value that was given as
      a token of its own ends in whitespace. */
  lemma IdempotentExactly(argv: seq<string>)
    requires Normalized(argv).Ok?
    ensures var r := Normalized(argv).value; Normalized(r.argv) == Ok(r) <==> SeparateValuesEndClean(argv[1..])
  {
    hide Scan, EndsClean, SeparateValuesEndClean;
    FixedExactly(argv);
    CleanExactly(argv[1..], NOTHING_SEEN);
  }

  lemma FixedExactly(argv: seq<string>)
    requires Normalized(argv).Ok?
    ensures var r := Normalized(argv).value; Normalized(r.argv) == Ok(r) <==> AddsClean(NOTHING_SEEN, r)
  {
    hide Scan, EndsClean;
    var rest := Scan(argv[1..], NOTHING_SEEN).value;
    var r := Normalized(argv).value;
    SecondPass(argv[1..], NOTHING_SEEN);
    assert !HasNul(argv[1..]) by {
      assert forall i :: 0 <= i < |argv[1..]| ==> argv[1..][i] == argv[i + 1];
    }
    ScanKeepsNul(argv[1..], NOTHING_SEEN);
    assert r.argv[1..] == rest.argv && r.argv[0] == argv[0];
    assert forall i :: 0 < i < |r.argv| ==> r.argv[i] == rest.argv[i - 1];
    assert !HasNul(r.argv);
    PrependOk(argv[0], Scan(rest.argv, NOTHING_SEEN), r);
  }

  /** An input the normaliser alone changes twice. */
  lemma TrailingSpaceIsLost()
    ensures var argv := ["mb", "--config", "x "];
            && Normalized(argv).Ok? && Normalized(argv).value.config == Some("x ")
            && Normalized(Normalized(argv).value.argv) != Normalized(argv)
  {
    var argv := ["mb", "--config", "x "];
    var tail := argv[1..];
    assert Trim(tail[0]) == "--config" && SingleDash("--config") == "-config";
    assert Trim(tail[1]) == "x" by {
      assert "x "[..1] == "x";
    }
    assert tail[2..] == [];
    assert Scan(tail, NOTHING_SEEN)
        == Prepend(Spelled(ConfigSelector, "x "), Scan([], WithValue(NOTHING_SEEN, ConfigSelector, "x ")));
    assert !EndsClean("x ");
    FixedExactly(argv);
  }

  /* What is left alone. */

  /** The tokens that are neither selectors nor their values, with everything from the terminator. */
  function Others(tokens: seq<string>): seq<string>
    decreases |tokens|
  {
    if tokens == [] then []
    else
      var token := Trim(tokens[0]);
      if token == "--" then tokens
      else
        match SelectorOf(token)
        case None => [tokens[0]] + Others(tokens[1..])
        case Some(s) =>
          if |SingleDash(token)| > |Name(s)| || |tokens| == 1 then Others(tokens[1..]) else Others(tokens[2..])
  }

  /** The suffix that starts at the terminator. */
  function FromTerminator(tokens: seq<string>): seq<string> {
    if tokens == [] || Trim(tokens[0]) == "--" then tokens else FromTerminator(tokens[1..])
  }

  lemma SpelledIsSkipped(s: Selector, value: string, rest: seq<string>)
    requires value != ""
    ensures Others([Spelled(s, value)] + rest) == Others(rest)
    ensures FromTerminator([Spelled(s, value)] + rest) == FromTerminator(rest)
  {
    hide Trim, SelectorOf, SingleDash, Spelled, TrimRight;
    SpelledReadsBack(s, value);
    assert ([Spelled(s, value)] + rest)[1..] == rest;
  }

  /** Normalising keeps every other token, in order and spelled as it was, and everything from the
      terminator on. */
  lemma {:induction false} OthersAreKept(tokens: seq<string>, seen: Arguments)
    requires Scan(tokens, seen).Ok?
    ensures Others(Scan(tokens, seen).value.argv) == Others(tokens)
    ensures FromTerminator(Scan(tokens, seen).value.argv) == FromTerminator(tokens)
    decreases |tokens|
  {
    hide Trim, IsSwitch, SelectorOf, SingleDash, Spelled;
    if tokens != [] && Trim(tokens[0]) != "--" {
      var token := Trim(tokens[0]);
      match SelectorOf(token)
      case None =>
        var next := if IsSwitch(SingleDash(token), "-user-data-dir") then seen.(hasUserDataDir := true) else seen;
        OthersAreKept(tokens[1..], next);
        var o := Scan(tokens[1..], next).value.argv;
        assert ([tokens[0]] + o)[1..] == o;
      case Some(s) =>
        if |SingleDash(token)| > |Name(s)| {
          var value := SingleDash(token)[|Name(s)| + 1..];
          OthersAreKept(tokens[1..], WithValue(seen, s, value));
          SpelledIsSkipped(s, value, Scan(tokens[1..], WithValue(seen, s, value)).value.argv);
        } else {
          OthersAreKept(tokens[2..], WithValue(seen, s, tokens[1]));
          SpelledIsSkipped(s, tokens[1], Scan(tokens[2..], WithValue(seen, s, tokens[1])).value.argv);
          assert Trim(tokens[1]) != "--";
          assert tokens[1..][1..] == tokens[2..];
        }
    }
  }

  /* The Chrome adapter, for a browser process. */

  predicate IsClean(value: Option<string>) {
    value.Some? ==> !HasBoundaryWhitespace(value.value)
  }

  const EQUALS_FORMS := ["--config=", "-config=", "--environment=", "-environment="]

  /** A raw token that hides boundary whitespace of a selector value from the trimming pass. */
  predicate HidesWhitespace(raw: string) {
    var token := TrimLeft(raw);
    exists i :: 0 <= i < |EQUALS_FORMS| && StartsWith(token, EQUALS_FORMS[i])
                && HasBoundaryWhitespace(token[|EQUALS_FORMS[i]|..])
  }

  predicate AllShown(tokens: seq<string>) {
    if tokens == [] || Trim(TrimLeft(tokens[0])) == "--" then true
    else !HidesWhitespace(tokens[0]) && AllShown(tokens[1..])
  }

  datatype AdapterError = NoExecutable | Normalizer(e: Error) | Whitespace | NoSentinel | ExtraFlags(inner: Option<Error>)

  predicate ExtraIsClear(extra: seq<string>, extraHasType: bool) {
    && extra != []
    && Normalized(["CHROME_EXTRA_FLAGS"] + extra[1..]).Ok?
    && var r := Normalized(["CHROME_EXTRA_FLAGS"] + extra[1..]).value;
       r.config == None && r.environment == None && !r.hasUserDataDir && !extraHasType
  }

  /** The error reported is the first that applies. */
  predicate IsAdapterError(raw: seq<string>, extra: seq<string>, extraHasType: bool, error: AdapterError) {
    if raw == [] || raw[0] == "" then error == NoExecutable
    else
      match Normalized(raw)
      case Err(e) => error == Normalizer(e)
      case Ok(value) =>
        if !IsClean(value.config) || !IsClean(value.environment) || !AllShown(raw[1..]) then error == Whitespace
        else if extra == [] then error == NoSentinel
        else
          match Normalized(["CHROME_EXTRA_FLAGS"] + extra[1..])
          case Err(e) => error == ExtraFlags(Some(e))
          case Ok(_) => error == ExtraFlags(None)
  }

  /** NormalizeChromeStartupArguments when neither argv names a process type. extraHasType is what
      Chromium's own parser says about the extra flags. */
  method NormalizeChromeStartupArguments(raw: seq<string>, extra: seq<string>, extraHasType: bool)
    returns (r: Result<Arguments, AdapterError>)
    ensures r.Ok? <==>
              && Normalized(raw).Ok?
              && IsClean(Normalized(raw).value.config) && IsClean(Normalized(raw).value.environment)
              && AllShown(raw[1..]) && ExtraIsClear(extra, extraHasType)
    ensures r.Ok? ==> Ok(r.value) == Normalized(raw) && Normalized(r.value.argv) == Ok(r.value)
    ensures r.Ok? ==> Others(r.value.argv[1..]) == Others(raw[1..])
    ensures r.Ok? ==> FromTerminator(r.value.argv[1..]) == FromTerminator(raw[1..])
    ensures r.Err? ==> IsAdapterError(raw, extra, extraHasType, r.error)
  {
    hide Scan, HidesWhitespace, Others, FromTerminator, HasBoundaryWhitespace, Trim;
    if raw == [] || raw[0] == "" { return Err(NoExecutable); }
    var normalized := NormalizeStartupArguments(raw);
    if normalized.Err? { return Err(Normalizer(normalized.error)); }
    var value := normalized.value;
    if value.config.Some? && HasBoundaryWhitespace(value.config.value) { return Err(Whitespace); }
    if value.environment.Some? && HasBoundaryWhitespace(value.environment.value) { return Err(Whitespace); }
    var i := 1;
    while i < |raw|
      invariant 1 <= i <= |raw|
      invariant AllShown(raw[1..]) <==> AllShown(raw[i..])
    {
      var token := TrimLeft(raw[i]);
      assert raw[i..][1..] == raw[i + 1..];
      if Trim(token) == "--" { break; }
      if HidesWhitespace(raw[i]) { return Err(Whitespace); }
      i := i + 1;
    }
    if extra == [] { return Err(NoSentinel); }
    var validation := ["CHROME_EXTRA_FLAGS"] + extra[1..];
    var checked := NormalizeStartupArguments(validation);
    if checked.Err? { return Err(ExtraFlags(Some(checked.error))); }
    if checked.value.config.Some? || checked.value.environment.Some? || checked.value.hasUserDataDir || extraHasType {
      return Err(ExtraFlags(None));
    }
    AcceptedIsFixed(raw);
    return Ok(value);
  }

  /** What the adapter's whitespace checks buy: the accepted command line is a fixed point. */
  lemma AcceptedIsFixed(raw: seq<string>)
    requires Normalized(raw).Ok?
    requires IsClean(Normalized(raw).value.config) && IsClean(Normalized(raw).value.environment)
    ensures var r := Normalized(raw).value;
            && Normalized(r.argv) == Ok(r)
            && r.argv != [] && Others(r.argv[1..]) == Others(raw[1..]) && FromTerminator(r.argv[1..]) == FromTerminator(raw[1..])
  {
    hide Scan, Others, FromTerminator, HasBoundaryWhitespace;
    var r := Normalized(raw).value;
    if r.config.Some? {
      UntrimmedEnd(r.config.value);
    }
    if r.environment.Some? {
      UntrimmedEnd(r.environment.value);
    }
    FixedExactly(raw);
    OthersAreKept(raw[1..], NOTHING_SEEN);
    assert r.argv[1..] == Scan(raw[1..], NOTHING_SEEN).value.argv;
  }
}
