/** Searching in strings, and names that several components look at. */
module Strings {

  /** Index of the first c in s, or |s|. */
  function Find(s: string, c: char): (e: nat)
    ensures e <= |s| && c !in s[..e] && (e < |s| ==> s[e] == c)
  {
    if s == "" || s[0] == c then 0
    else
      var e := Find(s[1..], c);
      assert s[..e + 1] == [s[0]] + s[1..][..e];
      e + 1
  }

  lemma FindUnique(s: string, c: char, e: nat)
    requires e <= |s| && c !in s[..e] && (e < |s| ==> s[e] == c)
    ensures Find(s, c) == e
  {
    var f := Find(s, c);
    assert forall k :: 0 <= k < e ==> s[..e][k] != c;
    assert forall k :: 0 <= k < f ==> s[..f][k] != c;
  }

  /** The same, character by character. */
  lemma FindAt(s: string, c: char, e: nat)
    requires e <= |s| && (forall k :: 0 <= k < e ==> s[k] != c) && (e < |s| ==> s[e] == c)
    ensures Find(s, c) == e
  {
    FindUnique(s, c, e);
  }

  lemma FindIs(s: string, c: char)
    ensures forall k :: 0 <= k < Find(s, c) ==> s[k] != c
  {
    var e := Find(s, c);
    assert forall k :: 0 <= k < e ==> s[..e][k] != c;
  }

  predicate StartsWith(s: string, p: string) {
    |p| <= |s| && s[..|p|] == p
  }

  predicate IsAlphanumeric(c: char) {
    'a' <= c <= 'z' || 'A' <= c <= 'Z' || '0' <= c <= '9'
  }
}
