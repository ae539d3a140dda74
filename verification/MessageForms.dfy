/** What happens to the messages of a catalogue, told by their names and texts. */
module MessageForms {

  import opened BrandingStrings
  import opened Tokens
  import opened Wrappers

  /* Names. */

  ghost predicate Holds(s: string, part: string) {
    exists a, b :: s == a + part + b
  }

  lemma {:induction false} ContainsExactly(s: string, part: string)
    ensures Contains(s, part) <==> Holds(s, part)
    decreases |s|
  {
    if part <= s {
      assert s == "" + part + s[|part|..];
    } else if s != "" {
      ContainsExactly(s[1..], part);
      if Holds(s[1..], part) {
        var a, b :| s[1..] == a + part + b;
        assert s == ([s[0]] + a) + part + b;
      }
      if Holds(s, part) {
        HoldsBehind(s, part);
      }
    }
  }

  lemma HoldsBehind(s: string, part: string)
    requires Holds(s, part) && !(part <= s)
    ensures s != "" && Holds(s[1..], part)
  {
    var a, b :| s == a + part + b;
    assert a != "";
    assert s[1..] == a[1..] + part + b;
  }

  predicate IsMessage(t: Tree) {
    t.tag == Named("message")
  }

  /** About the company, the copyright or the license of another system. */
  ghost predicate IsProtectedName(name: string) {
    || name == "IDS_ABOUT_VERSION_COMPANY_NAME" || name == "IDS_ABOUT_VERSION_COPYRIGHT"
    || name == "IDS_ABOUT_CROS_VERSION_LICENSE" || name == "IDS_ABOUT_CROS_WITH_LINUX_VERSION_LICENSE"
    || Holds(name, "COPYRIGHT")
  }

  predicate IsLicenseName(name: string) {
    name == "IDS_VERSION_UI_LICENSE" || name == "IDS_VERSION_UI_LICENSE_CHROMIUM" || name == "IDS_VERSION_UI_LICENSE_OTHER"
  }

  predicate IsProductName(name: string) {
    name == "IDS_PRODUCT_NAME" || name == "IDS_SHORT_PRODUCT_NAME"
  }

  /** A name about copyright has the letter G, which the names of the other kinds have not. */
  lemma CopyrightLetter(name: string)
    ensures Holds(name, "COPYRIGHT") ==> 'G' in name
  {
    if a, b :| name == a + "COPYRIGHT" + b {
      assert name[|a| + 6] == "COPYRIGHT"[6];
    }
  }

  lemma ProductNamesDiffer(name: string)
    requires IsProductName(name)
    ensures name !in PROTECTED_IDS && !IsLicenseName(name) && 'G' !in name && name[4] in {'P', 'S'}
  {
    assert "IDS_PRODUCT_NAME"[4] == 'P' && "IDS_SHORT_PRODUCT_NAME"[4] == 'S';
    if name in PROTECTED_IDS { ProtectedInitial(name); }
    if IsLicenseName(name) { LicenseInitial(name); }
  }

  lemma ProtectedInitial(name: string)
    requires name in PROTECTED_IDS
    ensures |name| > 4 && name[4] == 'A'
  {
  }

  lemma LicenseInitial(name: string)
    requires IsLicenseName(name)
    ensures |name| > 4 && name[4] == 'V' && 'G' !in name
  {
  }

  lemma ProtectedExactly(name: string)
    ensures IsProtectedName(name) <==> name in PROTECTED_IDS || Contains(name, "COPYRIGHT")
  {
    ContainsExactly(name, "COPYRIGHT");
  }

  /** The four kinds of messages. */
  lemma KindExactly(t: Tree)
    requires IsMessage(t)
    ensures var name := NameOf(t.attributes);
            && (TreeKind(t) == Protected <==> IsProtectedName(name))
            && (TreeKind(t) == ProductName <==> IsProductName(name))
            && (TreeKind(t) == License <==> IsLicenseName(name))
            && TreeKind(t) != Other
  {
    var name := NameOf(t.attributes);
    ProtectedExactly(name);
    if IsProductName(name) {
      ProductNamesDiffer(name);
      CopyrightLetter(name);
    }
    if IsLicenseName(name) {
      LicenseInitial(name);
      CopyrightLetter(name);
      if name in PROTECTED_IDS { ProtectedInitial(name); }
    }
    hide Contains, IsProtectedName;
    assert name in LICENSE_IDS <==> IsLicenseName(name);
    assert name in {"IDS_PRODUCT_NAME", "IDS_SHORT_PRODUCT_NAME"} <==> IsProductName(name);
  }

  /* Words. */

  /** The whole word Chromium is at i: the characters around it do not belong to words. */
  predicate IsWordAt(isWord: char -> bool, s: string, i: nat) {
    && i + 8 <= |s| && s[i..i + 8] == "Chromium"
    && (i > 0 ==> !isWord(s[i - 1])) && (i + 8 < |s| ==> !isWord(s[i + 8]))
  }

  predicate IsBehind(isWord: char -> bool, after: bool, s: string, i: nat)
    requires i <= |s|
  {
    if i == 0 then after else isWord(s[i - 1])
  }

  lemma SubStep(isWord: char -> bool, after: bool, s: string, name: string)
    requires s != "" && !IsToken(isWord, after, s)
    ensures IsFree(isWord, after, s) == IsFree(isWord, isWord(s[0]), s[1..])
    ensures Sub(isWord, after, s, name) == [s[0]] + Sub(isWord, isWord(s[0]), s[1..], name)
  {
  }

  /** What the search does once it has passed the first i characters. */
  lemma {:induction false} SubFrom(isWord: char -> bool, after: bool, s: string, name: string, i: nat)
    requires i <= |s| && forall k :: 0 <= k < i ==> !IsToken(isWord, IsBehind(isWord, after, s, k), s[k..])
    ensures IsFree(isWord, after, s) == IsFree(isWord, IsBehind(isWord, after, s, i), s[i..])
    ensures Sub(isWord, after, s, name) == s[..i] + Sub(isWord, IsBehind(isWord, after, s, i), s[i..], name)
    decreases i
  {
    hide IsFree, Sub, IsToken;
    if i == 0 {
      assert s[0..] == s;
    } else {
      SubFrom(isWord, after, s, name, i - 1);
      SubStep(isWord, IsBehind(isWord, after, s, i - 1), s[i - 1..], name);
      assert s[i - 1..][1..] == s[i..] && s[..i] == s[..i - 1] + [s[i - 1]];
    }
  }

  lemma TokenIsWord(isWord: char -> bool, s: string, i: nat)
    requires i < |s|
    ensures IsToken(isWord, IsBehind(isWord, false, s, i), s[i..]) <==> IsWordAt(isWord, s, i)
  {
    if i + 8 <= |s| { assert s[i..][..8] == s[i..i + 8]; }
  }

  /** The text up to the first whole word is kept, the word is replaced, and the search goes on behind it. */
  lemma SubAtWord(isWord: char -> bool, s: string, name: string, i: nat)
    requires IsWordAt(isWord, s, i) && forall k :: 0 <= k < i ==> !IsWordAt(isWord, s, k)
    ensures Sub(isWord, false, s, name) == s[..i] + name + Sub(isWord, true, s[i + 8..], name)
    ensures !IsFree(isWord, false, s)
  {
    forall k | 0 <= k <= i
      ensures IsToken(isWord, IsBehind(isWord, false, s, k), s[k..]) <==> IsWordAt(isWord, s, k)
    {
      TokenIsWord(isWord, s, k);
    }
    SubFrom(isWord, false, s, name, i);
    hide IsBehind, IsToken;
    assert s[i..][8..] == s[i + 8..];
  }

  /** A text is free of the word exactly if it is nowhere, and then it is kept. */
  lemma FreeExactly(isWord: char -> bool, s: string, name: string)
    ensures IsFree(isWord, false, s) <==> forall i :: 0 <= i < |s| ==> !IsWordAt(isWord, s, i)
    ensures IsFree(isWord, false, s) ==> Sub(isWord, false, s, name) == s
  {
    if forall i :: 0 <= i < |s| ==> !IsWordAt(isWord, s, i) {
      forall k | 0 <= k < |s|
        ensures !IsToken(isWord, IsBehind(isWord, false, s, k), s[k..])
      {
        TokenIsWord(isWord, s, k);
      }
      SubFrom(isWord, false, s, name, |s|);
      assert s[..|s|] == s && s[|s|..] == "";
    } else {
      var i := FirstWord(isWord, s, 0);
      SubAtWord(isWord, s, name, i);
    }
  }

  lemma FirstWord(isWord: char -> bool, s: string, from: nat) returns (i: nat)
    requires from <= |s| && forall k :: 0 <= k < from ==> !IsWordAt(isWord, s, k)
    requires exists k :: 0 <= k < |s| && IsWordAt(isWord, s, k)
    ensures IsWordAt(isWord, s, i) && forall k :: 0 <= k < i ==> !IsWordAt(isWord, s, k)
    decreases |s| - from
  {
    if IsWordAt(isWord, s, from) { return from; }
    i := FirstWord(isWord, s, from + 1);
  }

  /* Texts. */

  /** a and b are the whitespace that text starts and ends with. */
  predicate AreEdges(isSpace: char -> bool, text: string, a: string, b: string) {
    && a <= text && (forall c :: c in a ==> isSpace(c)) && (|a| < |text| ==> !isSpace(text[|a|]))
    && |b| <= |text| && text[|text| - |b|..] == b && (forall c :: c in b ==> isSpace(c))
    && (|b| < |text| ==> !isSpace(text[|text| - |b| - 1]))
  }

  lemma {:induction false} LeadingEnds(isSpace: char -> bool, s: string)
    ensures |Leading(isSpace, s)| < |s| ==> !isSpace(s[|Leading(isSpace, s)|])
    decreases |s|
  {
    if s != "" && isSpace(s[0]) { LeadingEnds(isSpace, s[1..]); }
  }

  lemma {:induction false} TrailingEnds(isSpace: char -> bool, s: string)
    ensures var b := Trailing(isSpace, s);
            && |b| <= |s| && s[|s| - |b|..] == b && (forall c :: c in b ==> isSpace(c))
            && (|b| < |s| ==> !isSpace(s[|s| - |b| - 1]))
    decreases |s|
  {
    if s != "" && isSpace(s[|s| - 1]) {
      TrailingEnds(isSpace, s[..|s| - 1]);
      var b := Trailing(isSpace, s);
      assert s == s[..|s| - 1] + [s[|s| - 1]];
    }
  }

  lemma EdgesAre(isSpace: char -> bool, s: string)
    ensures AreEdges(isSpace, s, Leading(isSpace, s), Trailing(isSpace, s))
  {
    hide Leading, Trailing;
    LeadingIsPrefix(isSpace, s);
    LeadingEnds(isSpace, s);
    TrailingEnds(isSpace, s);
  }

  /** A message at the end of a path that no ordinary message reaches, before and after. */
  ghost predicate IsDone(p: Product, t: Tree, path: seq<nat>, n: Tree, m: Tree) {
    && Transformed(p, t).Ok? && Has(t, path) && n == At(t, path) && IsMessage(n) && !IsReached(t, path)
    && Has(Transformed(p, t).value.tree, path) && m == At(Transformed(p, t).value.tree, path)
  }

  lemma DoneText(p: Product, t: Tree, path: seq<nat>, n: Tree, m: Tree)
    requires IsProduct(p) && IsDone(p, t, path, n, m)
    ensures m.text == OwnText(p, TreeKind(n), NameOf(n.attributes), n.text) && m.tail == n.tail
  {
    hide OwnText, KindOf, Transformed, IsReached;
    TransformedAt(p, t, path);
  }

  /** What each kind of message gets, between the edges a and b of its text. */
  lemma OwnTexts(p: Product, name: string, text: Option<string>, a: string, b: string)
    requires a == Leading(p.isSpace, TextOr(text)) && b == Trailing(p.isSpace, TextOr(text))
    ensures OwnText(p, Protected, name, text) == text
    ensures OwnText(p, ProductName, name, text) == Some(a + (if name == "IDS_PRODUCT_NAME" then p.fullName else p.shortName) + b)
    ensures OwnText(p, Ordinary, name, text) ==
            if text.Some? then Some(Sub(p.isWord, false, text.value, p.fullName)) else None
  {
    hide Leading, Trailing, Sub;
  }

  /** Protected messages keep their text; the product's own names replace the text between its blank edges; every
      other text but a license gets the product's name for each word. */
  lemma MessageText(p: Product, t: Tree, path: seq<nat>, n: Tree, m: Tree) returns (a: string, b: string)
    requires IsProduct(p) && IsDone(p, t, path, n, m)
    ensures AreEdges(p.isSpace, TextOr(n.text), a, b) && m.tail == n.tail
    ensures var name := NameOf(n.attributes);
            if IsProtectedName(name) then m.text == n.text
            else if IsProductName(name) then
              m.text == Some(a + (if name == "IDS_PRODUCT_NAME" then p.fullName else p.shortName) + b)
            else
              !IsLicenseName(name) ==>
                m.text == if n.text.Some? then Some(Sub(p.isWord, false, n.text.value, p.fullName)) else None
  {
    hide *;
    var name := NameOf(n.attributes);
    EdgesAre(p.isSpace, TextOr(n.text));
    a, b := Leading(p.isSpace, TextOr(n.text)), Trailing(p.isSpace, TextOr(n.text));
    OwnTexts(p, name, n.text, a, b);
    DoneText(p, t, path, n, m);
    DoneIsMessage(p, t, path, n, m);
    KindExactly(n);
  }

  lemma DoneIsMessage(p: Product, t: Tree, path: seq<nat>, n: Tree, m: Tree)
    requires IsDone(p, t, path, n, m)
    ensures IsMessage(n)
  {
  }

  /** Whitespace, the word Chromium, and the rest. */
  predicate IsLed(p: Product, text: string, blank: string, rest: string) {
    && text == blank + "Chromium" + rest && (forall c :: c in blank ==> p.isSpace(c))
    && (rest != "" ==> !p.isWord(rest[0]))
  }

  lemma {:induction false} LeadingOf(isSpace: char -> bool, a: string, b: string)
    requires (forall c :: c in a ==> isSpace(c)) && (b != "" ==> !isSpace(b[0]))
    ensures Leading(isSpace, a + b) == a
    decreases |a|
  {
    if a == "" {
      assert a + b == b;
    } else {
      assert (a + b)[1..] == a[1..] + b && a[0] in a;
      LeadingOf(isSpace, a[1..], b);
    }
  }

  lemma LedLeads(p: Product, text: string, blank: string, rest: string)
    requires IsProduct(p) && IsLed(p, text, blank, rest)
    ensures LeadsWithToken(p, text) && Leading(p.isSpace, text) == blank
  {
    var b := "Chromium" + rest;
    assert b[0] == CHROMIUM[0] && CHROMIUM[0] in CHROMIUM;
    assert text == blank + b;
    LeadingOf(p.isSpace, blank, b);
    assert text[|blank|..] == b && b[..8] == "Chromium" && b[8..] == rest;
  }

  lemma LeadsIsLed(p: Product, text: string)
    requires LeadsWithToken(p, text)
    ensures var blank := Leading(p.isSpace, text); |blank| + 8 <= |text| && IsLed(p, text, blank, text[|blank| + 8..])
  {
    hide Leading;
    var blank := Leading(p.isSpace, text);
    LeadingIsPrefix(p.isSpace, text);
    assert text[|blank|..][..8] == text[|blank|..|blank| + 8];
    assert text == text[..|blank|] + text[|blank|..|blank| + 8] + text[|blank| + 8..];
  }

  /** A license changes in the name that it starts with. */
  lemma LicenseText(p: Product, t: Tree, path: seq<nat>, n: Tree, m: Tree, blank: string, rest: string)
    requires IsProduct(p) && IsDone(p, t, path, n, m) && IsLicenseName(NameOf(n.attributes))
    requires n.text.Some? && IsLed(p, n.text.value, blank, rest)
    ensures m.text == Some(blank + p.fullName + rest) && m.tail == n.tail
  {
    LedLeads(p, n.text.value, blank, rest);
    DoneText(p, t, path, n, m);
    KindExactly(n);
    hide Leading, LeadsWithToken, IsProduct, IsDone, KindOf, SubFirst;
    OnlyTheLeadingName(p, n.text.value);
    assert n.text.value[|blank| + 8..] == rest;
  }

  /** A comment, or what a translation leaves to the program. */
  predicate IsPlaceholder(t: Tree) {
    t.tag == Comment || t.tag == Named("ph") || t.tag == Named("ex")
  }

  /** The path leads to its end without entering a placeholder. */
  predicate IsEntered(t: Tree, path: seq<nat>)
    requires Has(t, path)
    decreases |path|
  {
    path != [] ==> !IsPlaceholder(t) && IsEntered(t.children[path[0]], path[1..])
  }

  lemma {:induction false} EnteredExactly(t: Tree, path: seq<nat>)
    requires Has(t, path)
    ensures IsOpen(t, path) <==> IsEntered(t, path)
    decreases |path|
  {
    if path != [] { EnteredExactly(t.children[path[0]], path[1..]); }
  }

  /** Below an ordinary message no word is left in a text or tail, but inside placeholders and in messages of
      other kinds. */
  lemma EnteredIsRenamed(p: Product, t: Tree, path: seq<nat>)
    requires IsProduct(p) && Transformed(p, t).Ok? && Has(t, path) && IsEntered(t, path) && path != []
    requires IsMessage(t) && !IsMessage(At(t, path))
    requires var name := NameOf(t.attributes); !IsProtectedName(name) && !IsProductName(name) && !IsLicenseName(name)
    ensures Has(Transformed(p, t).value.tree, path)
    ensures var m := At(Transformed(p, t).value.tree, path);
            && (m.tail.Some? ==> IsFree(p.isWord, false, m.tail.value))
            && (!IsPlaceholder(At(t, path)) && m.text.Some? ==> IsFree(p.isWord, false, m.text.value))
  {
    EnteredExactly(t, path);
    KindExactly(t);
    hide IsProtectedName, IsLicenseName, IsProductName, Transformed, IsProduct;
    NoTokenIsLeft(p, t, path);
  }

  /** A placeholder without messages in it is kept, wherever it is, but for its own tail. */
  lemma PlaceholderIsKept(p: Product, t: Tree, path: seq<nat>)
    requires IsProduct(p) && Transformed(p, t).Ok? && Has(t, path) && IsPlaceholder(At(t, path)) && IsFlat(At(t, path), true)
    ensures Has(Transformed(p, t).value.tree, path)
    ensures At(Transformed(p, t).value.tree, path).(tail := None) == At(t, path).(tail := None)
  {
    InsideIsQuiet(At(t, path));
    hide IsQuiet, Transformed, IsReached, IsProduct, IsFlat;
    SubtreeIsKept(p, t, path);
  }

  /* Catalogues in which messages do not nest. */

  /** A message that the tool does not know how to rename. */
  ghost predicate IsMisfit(p: Product, n: Tree) {
    && IsMessage(n)
    && var name := NameOf(n.attributes);
       || (IsProductName(name) && n.children != [])
       || (IsLicenseName(name) && !exists blank, rest :: IsLed(p, TextOr(n.text), blank, rest))
  }

  ghost predicate HasMisfit(p: Product, t: Tree) {
    exists path :: Has(t, path) && IsMisfit(p, At(t, path))
  }

  lemma MisfitExactly(p: Product, t: Tree)
    requires IsProduct(p) && IsMessage(t)
    ensures Processed(p, t).Err? <==> IsMisfit(p, t)
  {
    KindExactly(t);
    hide KindOf, Leading, IsProtectedName, IsLed, IsProduct;
    if IsLicenseName(NameOf(t.attributes)) {
      LeadsExactly(p, TextOr(t.text));
    }
    hide LeadsWithToken;
  }

  lemma LeadsExactly(p: Product, text: string)
    requires IsProduct(p)
    ensures LeadsWithToken(p, text) <==> exists blank, rest :: IsLed(p, text, blank, rest)
  {
    if LeadsWithToken(p, text) { LeadsIsLed(p, text); }
    hide LeadsWithToken, Leading, IsLed;
    if blank, rest :| IsLed(p, text, blank, rest) { LedLeads(p, text, blank, rest); }
  }

  lemma {:induction false} InsideIsQuiet(t: Tree)
    requires IsFlat(t, true)
    ensures IsQuiet(t)
  {
    forall i | 0 <= i < |t.children|
      ensures IsQuiet(t.children[i])
    {
      InsideIsQuiet(t.children[i]);
    }
  }

  lemma {:induction false} FlatRewritten(p: Product, t: Tree, inside: bool)
    requires IsFlat(t, inside)
    ensures IsFlat(Rewritten(p, t), inside)
  {
    if !IsSkipped(t.tag) {
      var r := Rewritten(p, t);
      forall i | 0 <= i < |t.children|
        ensures IsFlat(r.children[i], inside || t.tag == Named("message"))
      {
        FlatRewritten(p, t.children[i], inside || t.tag == Named("message"));
        FlatRetailed(Rewritten(p, t.children[i]), SubText(p, t.children[i].tail), inside || t.tag == Named("message"));
      }
    }
  }

  lemma FlatRetailed(t: Tree, tail: Option<string>, inside: bool)
    requires IsFlat(t, inside)
    ensures IsFlat(t.(tail := tail), inside)
  {
  }

  /** A message that does not nest is done in one round. */
  lemma FlatMessage(p: Product, t: Tree)
    requires IsMessage(t) && IsFlat(t, false)
    ensures match Processed(p, t)
            case Err(e) => Transformed(p, t) == Err(e)
            case Ok(u) => Transformed(p, t) == Ok(Done(u, if u != t then [NameOf(t.attributes)] else []))
  {
    if Processed(p, t).Ok? {
      var u := Processed(p, t).value;
      assert forall i :: 0 <= i < |u.children| ==> IsFlat(u.children[i], true) by { FlatRewritten(p, t, false); }
      forall i | 0 <= i < |u.children|
        ensures IsQuiet(u.children[i])
      {
        InsideIsQuiet(u.children[i]);
      }
      hide Processed;
      QuietAreKept(p, u.children);
      assert u.(children := u.children) == u;
      var changed: seq<string> := if u != t then [NameOf(t.attributes)] else [];
      assert changed + [] == changed;
    }
  }

  /** The names of the messages of t that are not the same in u, in document order. */
  function ChangedNames(t: Tree, u: Tree): seq<string>
    decreases t
  {
    if IsMessage(t) then (if u != t then [NameOf(t.attributes)] else [])
    else if |u.children| != |t.children| then []
    else ChangedAmong(t.children, u.children)
  }

  function ChangedAmong(ts: seq<Tree>, us: seq<Tree>): seq<string>
    requires |ts| == |us|
    decreases ts
  {
    if ts == [] then [] else ChangedNames(ts[0], us[0]) + ChangedAmong(ts[1..], us[1..])
  }

  /** The list that is printed names exactly the messages that have changed, and the tool fails exactly if it
      meets a message that it cannot rename. */
  lemma {:induction false} ChangedExactly(p: Product, t: Tree)
    requires IsProduct(p) && IsFlat(t, false)
    ensures Transformed(p, t).Err? <==> HasMisfit(p, t)
    ensures Transformed(p, t).Ok? ==> Transformed(p, t).value.changed == ChangedNames(t, Transformed(p, t).value.tree)
    decreases t, 1
  {
    if IsMessage(t) {
      FlatMessage(p, t);
      MisfitExactly(p, t);
      MisfitInside(p, t);
    } else {
      ChangedAll(p, t.children);
      OtherRound(p, t);
      MisfitBelow(p, t);
    }
  }

  lemma MisfitInside(p: Product, t: Tree)
    requires IsMessage(t) && IsFlat(t, false)
    ensures HasMisfit(p, t) <==> IsMisfit(p, t)
  {
    hide IsMisfit, IsFlat;
    if path :| Has(t, path) && IsMisfit(p, At(t, path)) {
      assert IsMessage(At(t, path)) by { MisfitIsMessage(p, At(t, path)); }
      FlatIsNotReached(t, false, path);
    }
    if IsMisfit(p, t) { assert Has(t, []) && At(t, []) == t; }
  }

  lemma MisfitIsMessage(p: Product, n: Tree)
    requires IsMisfit(p, n)
    ensures IsMessage(n)
  {
  }

  lemma OtherRound(p: Product, t: Tree)
    requires !IsMessage(t)
    ensures match TransformedAll(p, t.children)
            case Err(e) => Transformed(p, t) == Err(e)
            case Ok(all) => Transformed(p, t) == Ok(Done(t.(children := all.trees), all.changed))
  {
    assert Processed(p, t) == Ok(t);
    var none: seq<string> := [];
    match TransformedAll(p, t.children)
    case Err(_) =>
    case Ok(all) => assert none + all.changed == all.changed;
  }

  ghost predicate HaveMisfit(p: Product, ts: seq<Tree>) {
    exists i :: 0 <= i < |ts| && HasMisfit(p, ts[i])
  }

  lemma MisfitBelow(p: Product, t: Tree)
    requires !IsMessage(t)
    ensures HasMisfit(p, t) <==> HaveMisfit(p, t.children)
  {
    if path :| Has(t, path) && IsMisfit(p, At(t, path)) {
      assert path != [];
      assert Has(t.children[path[0]], path[1..]);
      assert HasMisfit(p, t.children[path[0]]);
    }
    hide IsMisfit;
    if i :| 0 <= i < |t.children| && HasMisfit(p, t.children[i]) {
      var rest :| Has(t.children[i], rest) && IsMisfit(p, At(t.children[i], rest));
      var path: seq<nat> := [i] + rest;
      assert path[1..] == rest;
      assert Has(t, path) && At(t, path) == At(t.children[i], rest);
    }
  }

  lemma {:induction false} ChangedAll(p: Product, ts: seq<Tree>)
    requires IsProduct(p) && forall i :: 0 <= i < |ts| ==> IsFlat(ts[i], false)
    ensures TransformedAll(p, ts).Err? <==> HaveMisfit(p, ts)
    ensures TransformedAll(p, ts).Ok? ==>
              |TransformedAll(p, ts).value.trees| == |ts|
              && TransformedAll(p, ts).value.changed == ChangedAmong(ts, TransformedAll(p, ts).value.trees)
    decreases ts, 0
  {
    if ts != [] {
      ChangedExactly(p, ts[0]);
      ChangedAll(p, ts[1..]);
      hide IsProduct, IsFlat, HasMisfit, Transformed;
      assert HaveMisfit(p, ts) <==> HasMisfit(p, ts[0]) || HaveMisfit(p, ts[1..]) by { HaveSplit(p, ts); }
      hide HaveMisfit;
      if TransformedAll(p, ts).Ok? {
        var trees := TransformedAll(p, ts).value.trees;
        assert trees[1..] == TransformedAll(p, ts[1..]).value.trees;
      }
    }
  }

  lemma HaveSplit(p: Product, ts: seq<Tree>)
    requires ts != []
    ensures HaveMisfit(p, ts) <==> HasMisfit(p, ts[0]) || HaveMisfit(p, ts[1..])
  {
    hide HasMisfit;
    if i :| 0 <= i < |ts| && HasMisfit(p, ts[i]) {
      if i > 0 { assert HasMisfit(p, ts[1..][i - 1]); }
    }
    if j :| 0 <= j < |ts[1..]| && HasMisfit(p, ts[1..][j]) { assert HasMisfit(p, ts[j + 1]); }
  }
}
