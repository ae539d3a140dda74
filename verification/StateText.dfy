/** The text of the remembered-selection file and its parser. */
module StateText {

  import opened Strings
  import opened Wrappers

  predicate IsNameChar(c: char) {
    IsAlphanumeric(c) || c == '_' || c == '-'
  }

  /** [A-Za-z0-9][A-Za-z0-9_-]{0,63} */
  predicate IsPortable(name: string) {
    1 <= |name| <= 64 && IsAlphanumeric(name[0]) && forall i :: 0 <= i < |name| ==> IsNameChar(name[i])
  }

  /** IsPortableName. */
  method IsPortableName(name: string) returns (ok: bool)
    ensures ok <==> IsPortable(name)
  {
    if name == "" || |name| > 64 { return false; }
    if !IsAlphanumeric(name[0]) { return false; }
    for i := 0 to |name|
      invariant forall j :: 0 <= j < i ==> IsNameChar(name[j])
    {
      if !IsAlphanumeric(name[i]) && name[i] != '_' && name[i] != '-' { return false; }
    }
    return true;
  }

  const PREFIX := "schema_version = 1\nlast_environment = \""
  const SUFFIX := "\"\n"
  const STATE_LIMIT := 512
  const SIZE_T := 0x1_0000_0000_0000_0000

  function StateFor(name: string): string {
    PREFIX + name + SUFFIX
  }

  predicate EndsWith(s: string, e: string) {
    |e| <= |s| && s[|s| - |e|..] == e
  }

  /** std::string_view::substr: count is a size_t, cut down to what is left. */
  function Substr(s: string, pos: nat, count: nat): string
    requires pos <= |s|
  {
    if count <= |s| - pos then s[pos..pos + count] else s[pos..]
  }

  /** ParseState. The count is computed in size_t, so it wraps around when the text is shorter
      than prefix and suffix together. */
  function ParseState(text: string): Option<string> {
    if !StartsWith(text, PREFIX) || !EndsWith(text, SUFFIX) then None
    else
      var value := Substr(text, |PREFIX|, (|text| - |PREFIX| - 2) % SIZE_T);
      if IsPortable(value) then Some(value) else None
  }

  lemma PrefixParts()
    ensures |PREFIX| == 39 && |SUFFIX| == 2 && PREFIX[38] == '"' && SUFFIX[0] == '"' && SUFFIX[1] == '\n'
    ensures !IsNameChar('\n') && !IsNameChar('"')
  {
  }

  /** Every text that is shorter than prefix plus suffix but has both shares the quote; the wrapped
      count then takes all that follows the prefix, which is not a name. */
  lemma SharedQuoteIsRejected(text: string)
    requires StartsWith(text, PREFIX) && EndsWith(text, SUFFIX) && |text| < |PREFIX| + |SUFFIX|
    ensures text == PREFIX + "\n" && ParseState(text) == None
  {
    PrefixParts();
    assert text[|text| - 2..][0] == text[|text| - 2] && text[|text| - 2..][1] == text[|text| - 1];
    assert text[38] == text[..39][38] == '"' && text[|text| - 1] == '\n';
    assert |text| == 40;
    assert (|text| - 41) % SIZE_T == SIZE_T - 1;
    assert Substr(text, 39, SIZE_T - 1) == text[39..] == "\n";
    assert text == text[..39] + text[39..];
  }

  /** ParseState accepts exactly the texts StateFor produces for portable names. */
  lemma ParseIsExact(text: string, name: string)
    requires |text| < SIZE_T
    ensures ParseState(text) == Some(name) <==> IsPortable(name) && text == StateFor(name)
    ensures IsPortable(name) ==> |StateFor(name)| <= 105 <= STATE_LIMIT
  {
    PrefixParts();
    if |text| < 41 {
      if ParseState(text).Some? {
        SharedQuoteIsRejected(text);
      }
    } else {
      ParseCutsOut(text);
      StateCut(text, name);
    }
  }

  lemma ParseCutsOut(text: string)
    requires 41 <= |text| < SIZE_T
    ensures ParseState(text)
         == if text[..39] == PREFIX && text[|text| - 2..] == SUFFIX && IsPortable(text[39..|text| - 2])
            then Some(text[39..|text| - 2]) else None
  {
    PrefixParts();
    assert (|text| - 41) % SIZE_T == |text| - 41;
    hide IsPortable;
    assert StartsWith(text, PREFIX) ==> Substr(text, |PREFIX|, (|text| - |PREFIX| - 2) % SIZE_T) == text[39..|text| - 2];
  }

  lemma StateCut(text: string, name: string)
    requires 41 <= |text|
    ensures text == StateFor(name) <==> text[..39] == PREFIX && text[|text| - 2..] == SUFFIX && text[39..|text| - 2] == name
  {
    PrefixParts();
    if text == StateFor(name) {
      assert |text| - 2 == 39 + |name|;
    }
    assert text == text[..39] + text[39..|text| - 2] + text[|text| - 2..];
  }
}
