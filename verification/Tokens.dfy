/** Replacing whole words: TOKEN.sub (mb/tools/branding_strings.py).

    Which characters are word characters and which are whitespace is up to Python's re and str; both are
    parameters. */
module Tokens {

  const CHROMIUM := "Chromium"

  /** Python's classes: the letters of the token are word characters, and whitespace is not. */
  ghost predicate AreClasses(isWord: char -> bool, isSpace: char -> bool) {
    && (forall c :: c in CHROMIUM ==> isWord(c))
    && (forall c :: isSpace(c) ==> !isWord(c))
  }

  /** \bChromium\b matches at the front of s, which follows a word character if after. */
  predicate IsToken(isWord: char -> bool, after: bool, s: string) {
    !after && 8 <= |s| && s[..8] == CHROMIUM && (8 < |s| ==> !isWord(s[8]))
  }

  /** No match in s. */
  predicate IsFree(isWord: char -> bool, after: bool, s: string)
    decreases |s|
  {
    s != "" ==> !IsToken(isWord, after, s) && IsFree(isWord, isWord(s[0]), s[1..])
  }

  /** Every match replaced by name. */
  function Sub(isWord: char -> bool, after: bool, s: string, name: string): string
    decreases |s|
  {
    if s == "" then ""
    else if IsToken(isWord, after, s) then name + Sub(isWord, true, s[8..], name)
    else [s[0]] + Sub(isWord, isWord(s[0]), s[1..], name)
  }

  /** The first match replaced: sub with count=1. */
  function SubFirst(isWord: char -> bool, after: bool, s: string, name: string): string
    decreases |s|
  {
    if s == "" then ""
    else if IsToken(isWord, after, s) then name + s[8..]
    else [s[0]] + SubFirst(isWord, isWord(s[0]), s[1..], name)
  }

  /** Putting back the same word changes nothing: what Sub replaces is the word, and it keeps the rest. */
  lemma {:induction false} SubKeepsTheRest(isWord: char -> bool, after: bool, s: string)
    ensures Sub(isWord, after, s, CHROMIUM) == s
    decreases |s|
  {
    if s != "" {
      if IsToken(isWord, after, s) {
        SubKeepsTheRest(isWord, true, s[8..]);
        assert s == s[..8] + s[8..];
      } else {
        SubKeepsTheRest(isWord, isWord(s[0]), s[1..]);
      }
    }
  }

  lemma {:induction false} FreeIsFixed(isWord: char -> bool, after: bool, s: string, name: string)
    requires IsFree(isWord, after, s)
    ensures Sub(isWord, after, s, name) == s
    decreases |s|
  {
    if s != "" {
      FreeIsFixed(isWord, isWord(s[0]), s[1..], name);
    }
  }

  lemma BlankIsNoToken(isWord: char -> bool, isSpace: char -> bool, after: bool, s: string)
    requires AreClasses(isWord, isSpace) && (s != "" ==> !isWord(s[0]))
    ensures !IsToken(isWord, after, s)
  {
    assert CHROMIUM[0] in CHROMIUM;
    assert 8 <= |s| ==> s[..8][0] == s[0];
  }

  /** Nothing can match across a character that is not part of a word. */
  lemma {:induction false} FreeAppend(isWord: char -> bool, isSpace: char -> bool, after: bool, a: string, b: string)
    requires AreClasses(isWord, isSpace)
    requires IsFree(isWord, after, a) && (b != "" ==> !isWord(b[0]) && IsFree(isWord, false, b[1..]))
    ensures IsFree(isWord, after, a + b)
    decreases |a|
  {
    if a == "" {
      assert a + b == b;
      BlankIsNoToken(isWord, isSpace, after, b);
    } else {
      assert (a + b)[1..] == a[1..] + b;
      FreeAppend(isWord, isSpace, isWord(a[0]), a[1..], b);
      TokenAppend(isWord, isSpace, after, a, b);
    }
  }

  lemma TokenAppend(isWord: char -> bool, isSpace: char -> bool, after: bool, a: string, b: string)
    requires AreClasses(isWord, isSpace) && a != ""
    ensures IsToken(isWord, after, a + b) ==> IsToken(isWord, after, a) || (b != "" && isWord(b[0]))
  {
    if IsToken(isWord, after, a + b) {
      if |a| < 8 {
        assert (a + b)[..8][|a|] == b[0] && CHROMIUM[|a|] in CHROMIUM;
      } else {
        assert (a + b)[..8] == a[..8];
      }
    }
  }

  /** After a word character, Sub starts with the same run of word characters as s. */
  lemma {:induction false} SameRun(isWord: char -> bool, s: string, name: string, k: nat)
    requires var r := Sub(isWord, true, s, name); k <= |r| && forall i :: 0 <= i < k ==> isWord(r[i])
    ensures k <= |s| && s[..k] == Sub(isWord, true, s, name)[..k]
    ensures Sub(isWord, true, s, name)[k..] == Sub(isWord, true, s[k..], name)
    decreases k
  {
    var r := Sub(isWord, true, s, name);
    if k == 0 {
      assert s[0..] == s && r[0..] == r;
    } else {
      assert r[0] == s[0] && r[1..] == Sub(isWord, true, s[1..], name);
      hide Sub, IsToken;
      assert forall i :: 0 <= i < k - 1 ==> r[1..][i] == r[i + 1];
      SameRun(isWord, s[1..], name, k - 1);
      assert s[..k] == [s[0]] + s[1..][..k - 1] && r[..k] == [r[0]] + r[1..][..k - 1];
      assert s[1..][k - 1..] == s[k..] && r[1..][k - 1..] == r[k..];
    }
  }

  /** Replacing elsewhere does not make up a match. */
  lemma TokenWasThere(isWord: char -> bool, isSpace: char -> bool, after: bool, s: string, name: string)
    requires AreClasses(isWord, isSpace) && s != ""
    requires IsToken(isWord, after, [s[0]] + Sub(isWord, isWord(s[0]), s[1..], name))
    ensures IsToken(isWord, after, s)
  {
    var rest := Sub(isWord, isWord(s[0]), s[1..], name);
    var r := [s[0]] + rest;
    assert r[0] == r[..8][0] && CHROMIUM[0] in CHROMIUM;
    forall i | 0 <= i < 7
      ensures isWord(rest[i])
    {
      assert rest[i] == r[..8][i + 1] && CHROMIUM[i + 1] in CHROMIUM;
    }
    SameRun(isWord, s[1..], name, 7);
    assert s[..8] == [s[0]] + s[1..][..7] && r[..8] == [r[0]] + rest[..7];
    assert s[1..][7..] == s[8..] && rest[7..] == r[8..];
    assert 8 < |s| ==> r[8..] != "" && r[8..][0] == s[8..][0];
  }

  /** No match is left, if the new name has none itself. */
  lemma {:induction false} SubIsFree(isWord: char -> bool, isSpace: char -> bool, after: bool, s: string, name: string)
    requires AreClasses(isWord, isSpace) && IsFree(isWord, false, name)
    ensures IsFree(isWord, after, Sub(isWord, after, s, name))
    decreases |s|
  {
    if s == "" {
    } else if IsToken(isWord, after, s) {
      var rest := Sub(isWord, true, s[8..], name);
      SubIsFree(isWord, isSpace, true, s[8..], name);
      if s[8..] != "" {
        assert !IsToken(isWord, true, s[8..]);
        assert rest[0] == s[8] && !isWord(rest[0]);
      }
      FreeAppend(isWord, isSpace, after, name, rest);
    } else {
      if IsToken(isWord, after, Sub(isWord, after, s, name)) { TokenWasThere(isWord, isSpace, after, s, name); }
      SubIsFree(isWord, isSpace, isWord(s[0]), s[1..], name);
      assert Sub(isWord, after, s, name)[1..] == Sub(isWord, isWord(s[0]), s[1..], name);
    }
  }

  /** Replacing is idempotent, and changes nothing exactly where there is no match. */
  lemma SubIsIdempotent(isWord: char -> bool, isSpace: char -> bool, s: string, name: string)
    requires AreClasses(isWord, isSpace) && IsFree(isWord, false, name)
    ensures Sub(isWord, false, Sub(isWord, false, s, name), name) == Sub(isWord, false, s, name)
    ensures Sub(isWord, false, s, name) == s <==> IsFree(isWord, false, s)
  {
    SubIsFree(isWord, isSpace, false, s, name);
    FreeIsFixed(isWord, false, Sub(isWord, false, s, name), name);
    if IsFree(isWord, false, s) { FreeIsFixed(isWord, false, s, name); }
  }

  /** When the text leads with the word, only that one is replaced. */
  lemma {:induction false} OnlyTheLeadingOne(isWord: char -> bool, isSpace: char -> bool, blank: string, rest: string,
                                             name: string)
    requires AreClasses(isWord, isSpace) && (forall c :: c in blank ==> isSpace(c)) && (rest != "" ==> !isWord(rest[0]))
    ensures SubFirst(isWord, false, blank + CHROMIUM + rest, name) == blank + name + rest
    decreases |blank|
  {
    var s := blank + CHROMIUM + rest;
    if blank == "" {
      assert s[..8] == CHROMIUM && s[8..] == rest;
      assert blank + name + rest == name + rest;
    } else {
      assert s[0] == blank[0] && blank[0] in blank;
      BlankIsNoToken(isWord, isSpace, false, s);
      assert s[1..] == blank[1..] + CHROMIUM + rest;
      OnlyTheLeadingOne(isWord, isSpace, blank[1..], rest, name);
      assert blank + name + rest == [blank[0]] + (blank[1..] + name + rest);
    }
  }
}
