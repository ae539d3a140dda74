/** Text policy shared by the path validator, the schema checker and the diagnostic printer. */
module Text {

  import opened Wrappers
  import opened Utf8

  /** C0, DEL and C1. */
  predicate IsControl(v: int) {
    v < 0x20 || 0x7F <= v <= 0x9F
  }

  /** The embedding, override and isolate controls that reorder displayed text. */
  predicate IsBidiControl(v: int) {
    0x202A <= v <= 0x202E || 0x2066 <= v <= 0x2069
  }

  /** UTF-8 without control characters. */
  ghost predicate IsPlain(s: string) {
    Decode(s).Some? && forall v :: v in Decode(s).value ==> !IsControl(v)
  }

  /** UTF-8 without control or bidirectional formatting characters. */
  ghost predicate IsDisplayable(s: string) {
    Decode(s).Some? && forall v :: v in Decode(s).value ==> !IsControl(v) && !IsBidiControl(v)
  }

  lemma PlainStep(s: string)
    requires s != ""
    ensures IsPlain(s) <==> Front(s).Unit? && !IsControl(Front(s).value) && IsPlain(s[Front(s).size..])
  {
    if Decode(s).Some? {
      var vs := Decode(s).value;
      var rest := Decode(s[Front(s).size..]).value;
      assert vs == [Front(s).value] + rest;
      assert forall v :: v in vs <==> v == vs[0] || v in rest;
    }
  }

  lemma DisplayableAppend(a: string, b: string)
    requires IsDisplayable(a) && IsDisplayable(b)
    ensures IsDisplayable(a + b)
  {
    DecodeAppend(a, b);
  }

  /** Plain text cut at a plain ASCII byte gives plain texts, and joining them back is plain. */
  lemma PlainAroundAscii(a: string, c: char, b: string)
    requires 0x20 <= c as int < 0x7F
    ensures IsPlain(a + [c] + b) <==> IsPlain(a) && IsPlain(b)
  {
    DecodeAroundAscii(a, c, b);
    if Decode(a).Some? && Decode(b).Some? {
      var vs, us, ws := Decode(a + [c] + b).value, Decode(a).value, Decode(b).value;
      assert forall v :: v in vs <==> v in us || v == c as int || v in ws;
    }
  }

  lemma PlainAppend(a: string, b: string)
    requires IsPlain(a)
    ensures IsPlain(a + b) <==> IsPlain(b)
  {
    DecodeAppend(a, b);
    if Decode(b).Some? {
      var vs, us, ws := Decode(a + b).value, Decode(a).value, Decode(b).value;
      assert forall v :: v in vs <==> v in us || v in ws;
    }
  }

  /** What ValidText accepts, stated over encodings. */
  ghost predicate IsEncodedText(s: string) {
    s != "" && exists vs: seq<int> ::
      AreScalars(vs) && EncodeAll(vs) == s && forall v :: v in vs ==> !IsControl(v)
  }

  lemma EncodedTextIsPlain(s: string)
    ensures IsEncodedText(s) <==> s != "" && IsPlain(s)
    ensures IsEncodedText(s) ==> IsUtf8(s)
  {
    DecodeIsGrammar(s);
    if s != "" && IsPlain(s) {
      DecodeIsInverse(s, Decode(s).value);
    }
    forall vs: seq<int> | AreScalars(vs) && EncodeAll(vs) == s
      ensures Decode(s) == Some(vs)
    {
      DecodeIsInverse(s, vs);
    }
  }

  lemma CutTwice(s: string, i: nat, j: nat, k: nat)
    requires i <= |s| && j <= k <= |s| - i
    ensures s[i..][j..k] == s[i + j..i + k] && s[i..][j..] == s[i + j..]
  {
  }

  lemma Slices(s: string, a: nat, b: nat, c: nat)
    requires a <= b <= c <= |s|
    ensures s[a..][b - a..c - a] == s[b..c] && s[a..c][b - a..] == s[b..c]
  {
  }

  lemma EmptyIsPlain(text: string)
    ensures text[0..] == text && IsPlain(text[|text|..])
  {
  }

  lemma FoldAt(text: string, i: nat, end: nat, value: int)
    requires i <= end <= |text|
    ensures Fold(value, text[i..end]) ==
            if i == end then Some(value)
            else if text[i] as int / 0x40 != 2 then None
            else Fold(value * 0x40 + text[i] as int % 0x40, text[i + 1..end])
  {
    if i < end { Slices(text, i, i + 1, end); }
  }

  /** What the first byte says: how many follow, its share of the value, and the least value allowed. */
  lemma LeadExactly(c: char)
    ensures var b, n, bits := c as int, LeadSize(c), LeadBits(c);
            if b < 0x80 then n == 1 && bits == b && Minimum(n) == 0
            else if 0xC2 <= b <= 0xDF then n == 2 && bits == b % 0x20 && Minimum(n) == 0x80
            else if 0xE0 <= b <= 0xEF then n == 3 && bits == b % 0x10 && Minimum(n) == 0x800
            else if 0xF0 <= b <= 0xF4 then n == 4 && bits == b % 8 && Minimum(n) == 0x10000
            else n == 0
  {
  }

  lemma FrontExactly(s: string)
    requires s != ""
    ensures var n := LeadSize(s[0]);
            if n == 0 || n > |s| || Fold(LeadBits(s[0]), s[1..n]).None? then Front(s).Bad?
            else
              var v := Fold(LeadBits(s[0]), s[1..n]).value;
              if v < Minimum(n) || v < 0 || v > 0x10FFFF || 0xD800 <= v <= 0xDFFF then Front(s).Bad? else Front(s) == Unit(v, n)
  {
    hide Fold, LeadSize, LeadBits, Minimum;
  }

  /** mb::ValidText. The masks and shifts of the source are written as the arithmetic they do. */
  method ValidText(text: string) returns (ok: bool)
    ensures ok <==> IsEncodedText(text)
  {
    EncodedTextIsPlain(text);
    EmptyIsPlain(text);
    hide IsEncodedText, IsPlain, Fold, Front, LeadSize, LeadBits, Minimum;
    if text == "" { return false; }
    var i := 0;
    while i < |text|
      invariant i <= |text|
      invariant IsPlain(text) <==> IsPlain(text[i..])
    {
      ghost var rest, start := text[i..], i;
      PlainStep(rest);
      FrontExactly(rest);
      LeadExactly(rest[0]);
      var lead := text[i] as int;
      i := i + 1;
      var value, minimum, extra := 0, 0, 0;
      if lead < 0x80 {
        value := lead;
      } else if 0xC2 <= lead <= 0xDF {
        value, extra, minimum := lead % 0x20, 1, 0x80;
      } else if 0xE0 <= lead <= 0xEF {
        value, extra, minimum := lead % 0x10, 2, 0x800;
      } else if 0xF0 <= lead <= 0xF4 {
        value, extra, minimum := lead % 8, 3, 0x10000;
      } else {
        return false;
      }
      if i + extra > |text| { return false; }
      ghost var end := i + extra;
      CutTwice(text, start, 1, 1 + extra);
      ghost var folded := Fold(value, text[i..end]);
      assert Fold(LeadBits(rest[0]), rest[1..LeadSize(rest[0])]) == folded;
      FoldAt(text, i, end, value);
      while extra > 0
        invariant 0 <= extra && i + extra == end <= |text|
        invariant folded == Fold(value, text[i..end])
        invariant extra == 0 ==> folded == Some(value)
      {
        var next := text[i] as int;
        FoldAt(text, i, end, value);
        if next / 0x40 != 2 { return false; }
        value := value * 0x40 + next % 0x40;
        i, extra := i + 1, extra - 1;
        FoldAt(text, i, end, value);
      }
      if value < minimum || value > 0x10FFFF || 0xD800 <= value <= 0xDFFF || value < 0x20 || 0x7F <= value <= 0x9F {
        return false;
      }
      CutTwice(text, start, end - start, |rest|);
    }
    return true;
  }

  /** A byte that HasControl stops at: C0, DEL, or C2 followed by 80..9F. */
  predicate IsControlByte(s: string, i: nat)
    requires i < |s|
  {
    s[i] as int < 0x20 || s[i] as int == 0x7F
    || (s[i] as int == 0xC2 && i + 1 < |s| && 0x80 <= s[i + 1] as int <= 0x9F)
  }

  /** mb::config::HasControl, which scans bytes and never decodes. */
  method HasControl(value: string) returns (found: bool)
    ensures found <==> exists i: nat :: i < |value| && IsControlByte(value, i)
  {
    var i := 0;
    while i < |value|
      invariant i <= |value|
      invariant forall j: nat :: j < i ==> !IsControlByte(value, j)
    {
      var character := value[i] as int;
      if character < 0x20 || character == 0x7F {
        assert IsControlByte(value, i);
        return true;
      }
      if character == 0xC2 && i + 1 < |value| {
        var next := value[i + 1] as int;
        if 0x80 <= next <= 0x9F {
          assert IsControlByte(value, i);
          return true;
        }
      }
      i := i + 1;
    }
    return false;
  }

  /** Within one well-formed character the byte test is the code point test. */
  lemma ControlInFront(s: string)
    requires s != "" && Front(s).Unit?
    ensures IsControl(Front(s).value) <==> IsControlByte(s, 0)
    ensures forall i: nat :: 0 < i < Front(s).size ==> !IsControlByte(s, i)
  {
    var n := LeadSize(s[0]);
    FoldSteps(LeadBits(s[0]), s[1..n]);
    assert forall i :: 1 <= i < n ==> s[1..n][i - 1] == s[i];
  }

  /** On well-formed text the byte scan finds a control exactly when one is encoded: a C2 byte is
      always the start of a character, so no match straddles two of them. */
  lemma {:induction false} ByteScanAgrees(s: string)
    requires Decode(s).Some?
    ensures (exists i: nat :: i < |s| && IsControlByte(s, i)) <==> !IsPlain(s)
    decreases |s|
  {
    if s != "" {
      var n := Front(s).size;
      var t := s[n..];
      ControlInFront(s);
      PlainStep(s);
      ByteScanAgrees(t);
      forall i: nat | n <= i < |s|
        ensures IsControlByte(s, i) <==> IsControlByte(t, i - n)
      {
      }
      if i: nat :| i < |t| && IsControlByte(t, i) {
        assert IsControlByte(s, i + n);
      }
    }
  }

  /* The companion command's diagnostics. */

  function HexDigit(d: int): (c: char)
    requires 0 <= d < 16
    ensures 0x30 <= c as int <= 0x66
  {
    "0123456789abcdef"[d]
  }

  predicate IsBytes(s: string) {
    forall i :: 0 <= i < |s| ==> s[i] as int <= 0xFF
  }

  function EscapeByte(c: char): string
    requires c as int <= 0xFF
  {
    ['\\', 'x', HexDigit(c as int / 16), HexDigit(c as int % 16)]
  }

  function EscapeBytes(s: string): string
    requires IsBytes(s)
  {
    if s == "" then "" else EscapeByte(s[0]) + EscapeBytes(s[1..])
  }

  /** What the front of s prints as, and how many bytes of s that uses up: a displayable
      character verbatim, the bytes of a control, or one undecodable byte, as \xHH. */
  function Printed(s: string): (r: (string, nat))
    requires IsBytes(s) && s != ""
    ensures 1 <= r.1 <= |s|
  {
    match Front(s)
    case Bad => (EscapeByte(s[0]), 1)
    case Unit(v, n) => (if IsControl(v) || IsBidiControl(v) then EscapeBytes(s[..n]) else s[..n], n)
  }

  function Safe(s: string): string
    requires IsBytes(s)
    decreases |s|
  {
    if s == "" then "" else Printed(s).0 + Safe(s[Printed(s).1..])
  }

  lemma EscapeAppend(s: string, c: char)
    requires IsBytes(s) && c as int <= 0xFF
    ensures EscapeBytes(s + [c]) == EscapeBytes(s) + EscapeByte(c)
  {
    if s != "" {
      assert (s + [c])[1..] == s[1..] + [c];
      EscapeAppend(s[1..], c);
    } else {
      assert s + [c] == [c];
    }
  }

  /** The decoding half of SafeDiagnostic: its second, independently written UTF-8 decoder. */
  method DecodeAt(text: string, i: nat) returns (valid: bool, codepoint: int, count: nat)
    requires i < |text| && text[i] as int >= 0x80
    ensures valid <==> Front(text[i..]).Unit?
    ensures valid ==> Front(text[i..]) == Unit(codepoint, count)
  {
    ghost var rest := text[i..];
    var ch := text[i] as int;
    var minimum := 0;
    count, codepoint := 0, 0;
    if 0xC2 <= ch <= 0xDF {
      count, codepoint, minimum := 2, ch % 0x20, 0x80;
    } else if 0xE0 <= ch <= 0xEF {
      count, codepoint, minimum := 3, ch % 0x10, 0x800;
    } else if 0xF0 <= ch <= 0xF4 {
      count, codepoint, minimum := 4, ch % 8, 0x10000;
    }
    valid := count != 0 && i + count <= |text|;
    ghost var fits := valid;
    ghost var tail := if fits then text[i + 1..i + count] else "";
    if fits { Slices(text, i, i + 1, i + count); }
    ghost var bits := codepoint;
    var j := 1;
    while valid && j < count
      invariant fits ==> 1 <= j <= count && i + count <= |text|
      invariant fits && valid ==> Fold(bits, tail) == Fold(codepoint, text[i + j..i + count])
      invariant fits && !valid ==> Fold(bits, tail).None?
      invariant valid ==> fits
      decreases count - j
    {
      var continuation := text[i + j] as int;
      Slices(text, i + j, i + j + 1, i + count);
      valid := continuation / 0x40 == 2;
      codepoint := codepoint * 0x40 + continuation % 0x40;
      j := j + 1;
    }
    valid := valid && codepoint >= minimum && codepoint <= 0x10FFFF && !(0xD800 <= codepoint <= 0xDFFF);
  }

  /** What is still to be printed at i. */
  ghost function SafeFrom(text: string, i: nat): string
    requires IsBytes(text) && i <= |text|
  {
    Safe(text[i..])
  }

  /** What is printed at i, and where printing goes on. */
  ghost function PieceAt(text: string, i: nat): string
    requires IsBytes(text) && i < |text|
  {
    Printed(text[i..]).0
  }

  ghost function NextAt(text: string, i: nat): (next: nat)
    requires IsBytes(text) && i < |text|
    ensures i < next <= |text|
  {
    i + Printed(text[i..]).1
  }

  /** safe is what the text prints as up to i. */
  ghost predicate IsPrinted(text: string, i: nat, safe: string)
    requires IsBytes(text) && i <= |text|
  {
    safe + SafeFrom(text, i) == Safe(text)
  }

  lemma PrintedStep(text: string, i: nat, safe: string)
    requires IsBytes(text) && i < |text| && IsPrinted(text, i, safe)
    ensures IsPrinted(text, NextAt(text, i), safe + PieceAt(text, i))
  {
    hide Printed;
    var piece, next := PieceAt(text, i), NextAt(text, i);
    assert text[i..][next - i..] == text[next..];
    assert safe + (piece + SafeFrom(text, next)) == (safe + piece) + SafeFrom(text, next);
  }

  lemma PrintedEnds(text: string, safe: string)
    requires IsBytes(text)
    ensures IsPrinted(text, 0, "")
    ensures IsPrinted(text, |text|, safe) ==> safe == Safe(text)
  {
    assert text[0..] == text && text[|text|..] == "";
    assert "" + Safe(text) == Safe(text) && safe + "" == safe;
  }

  lemma PrintedAtAscii(text: string, i: nat)
    requires IsBytes(text) && i < |text| && text[i] as int < 0x80
    ensures PieceAt(text, i) == if text[i] as int < 0x20 || text[i] as int == 0x7F then EscapeByte(text[i]) else [text[i]]
    ensures NextAt(text, i) == i + 1
  {
    var s := text[i..];
    assert s[1..1] == "";
    assert Front(s) == Unit(s[0] as int, 1);
    assert s[..1] == [s[0]] && s[1..] == text[i + 1..];
    assert [s[0]][1..] == "";
    assert EscapeBytes([s[0]]) == EscapeByte(s[0]) + EscapeBytes("") == EscapeByte(s[0]);
  }

  lemma PrintedAtBad(text: string, i: nat)
    requires IsBytes(text) && i < |text| && Front(text[i..]).Bad?
    ensures PieceAt(text, i) == EscapeByte(text[i]) && NextAt(text, i) == i + 1
  {
    hide EscapeByte, EscapeBytes, Front;
  }

  /** The controls and bidi controls outside ASCII. */
  predicate IsEscaped(codepoint: int) {
    0x80 <= codepoint <= 0x9F || 0x202A <= codepoint <= 0x202E || 0x2066 <= codepoint <= 0x2069
  }

  lemma PrintedAtUnit(text: string, i: nat, v: int, n: nat)
    requires IsBytes(text) && i < |text| && text[i] as int >= 0x80 && Front(text[i..]) == Unit(v, n)
    ensures i < i + n <= |text|
    ensures PieceAt(text, i) == if IsEscaped(v) then EscapeBytes(text[i..i + n]) else text[i..i + n]
    ensures NextAt(text, i) == i + n
    ensures IsBytes(text[i..i + n])
  {
    hide EscapeByte, EscapeBytes;
    var s := text[i..];
    WideIsNotAscii(s);
    FrontIsEncoding(s);
    assert s[..n] == text[i..i + n] && s[n..] == text[i + n..];
  }

  lemma WideIsNotAscii(s: string)
    requires s != "" && s[0] as int >= 0x80 && Front(s).Unit?
    ensures Front(s).value >= 0x80
  {
  }

  /** The loop that escapes every byte of one character. */
  method AppendEscaped(before: string, bytes: string) returns (safe: string)
    requires IsBytes(bytes)
    ensures safe == before + EscapeBytes(bytes)
  {
    safe := before;
    var j := 0;
    while j < |bytes|
      invariant 0 <= j <= |bytes|
      invariant safe == before + EscapeBytes(bytes[..j])
    {
      assert bytes[..j + 1] == bytes[..j] + [bytes[j]];
      EscapeAppend(bytes[..j], bytes[j]);
      safe := safe + EscapeByte(bytes[j]);
      j := j + 1;
    }
    assert bytes[..j] == bytes;
  }

  /** The body of the loop of SafeDiagnostic, for a byte outside ASCII. */
  method AppendWide(before: string, text: string, i: nat) returns (safe: string, next: nat)
    requires IsBytes(text) && i < |text| && text[i] as int >= 0x80
    ensures safe == before + PieceAt(text, i) && next == NextAt(text, i)
  {
    hide PieceAt, NextAt, Front, EscapeByte, EscapeBytes;
    var valid, codepoint, count := DecodeAt(text, i);
    if !valid {
      PrintedAtBad(text, i);
      return before + EscapeByte(text[i]), i + 1;
    }
    PrintedAtUnit(text, i, codepoint, count);
    next := i + count;
    if 0x80 <= codepoint <= 0x9F || 0x202A <= codepoint <= 0x202E || 0x2066 <= codepoint <= 0x2069 {
      safe := AppendEscaped(before, text[i..next]);
    } else {
      safe := before + text[i..next];
    }
  }

  /** SafeDiagnostic of the companion command. */
  method SafeDiagnostic(text: string) returns (safe: string)
    requires IsBytes(text)
    ensures safe == Safe(text)
  {
    safe := "";
    var i := 0;
    PrintedEnds(text, safe);
    hide Safe, IsPrinted, PieceAt, NextAt, EscapeByte;
    while i < |text|
      invariant i <= |text| && IsPrinted(text, i, safe)
    {
      PrintedStep(text, i, safe);
      var ch := text[i] as int;
      if ch < 0x20 || ch == 0x7F {
        PrintedAtAscii(text, i);
        safe := safe + EscapeByte(text[i]);
        i := i + 1;
      } else if ch < 0x80 {
        PrintedAtAscii(text, i);
        safe := safe + [text[i]];
        i := i + 1;
      } else {
        safe, i := AppendWide(safe, text, i);
      }
    }
    PrintedEnds(text, safe);
  }

  lemma {:induction false} AsciiIsDisplayable(s: string)
    requires forall i :: 0 <= i < |s| ==> 0x20 <= s[i] as int < 0x7F
    ensures IsDisplayable(s)
    decreases |s|
  {
    if s != "" {
      AsciiIsDisplayable(s[1..]);
      assert s[1..1] == "";
      assert Front(s) == Unit(s[0] as int, 1);
    }
  }

  lemma EscapesAreDisplayable(s: string)
    requires IsBytes(s)
    ensures IsDisplayable(EscapeBytes(s))
  {
    if s != "" {
      AsciiIsDisplayable(EscapeByte(s[0]));
      EscapesAreDisplayable(s[1..]);
      DisplayableAppend(EscapeByte(s[0]), EscapeBytes(s[1..]));
    }
  }

  lemma FrontIsDisplayable(s: string)
    requires s != "" && Front(s).Unit? && !IsControl(Front(s).value) && !IsBidiControl(Front(s).value)
    ensures IsDisplayable(s[..Front(s).size])
  {
    var c := s[..Front(s).size];
    assert Front(s).size == LeadSize(s[0]) == |c| && c[0] == s[0];
    assert c[1..LeadSize(c[0])] == s[1..LeadSize(s[0])];
    assert Front(c) == Front(s);
    assert c[Front(s).size..] == "";
    assert [Front(s).value] + [] == [Front(s).value];
    assert Decode(c) == Some([Front(s).value]);
  }

  /** Whatever bytes go in, the output is well-formed UTF-8 without control or bidi characters. */
  lemma {:induction false} SafeIsDisplayable(s: string)
    requires IsBytes(s)
    ensures IsDisplayable(Safe(s))
    decreases |s|
  {
    if s != "" {
      match Front(s)
      case Bad =>
        SafeIsDisplayable(s[1..]);
        AsciiIsDisplayable(EscapeByte(s[0]));
        DisplayableAppend(EscapeByte(s[0]), Safe(s[1..]));
      case Unit(v, n) =>
        SafeIsDisplayable(s[n..]);
        var head := if IsControl(v) || IsBidiControl(v) then EscapeBytes(s[..n]) else s[..n];
        if IsControl(v) || IsBidiControl(v) {
          EscapesAreDisplayable(s[..n]);
        } else {
          FrontIsDisplayable(s);
        }
        DisplayableAppend(head, Safe(s[n..]));
    }
  }

  lemma DisplayableStep(s: string)
    requires s != "" && IsDisplayable(s)
    ensures Front(s).Unit? && !IsControl(Front(s).value) && !IsBidiControl(Front(s).value)
    ensures IsDisplayable(s[Front(s).size..])
  {
    var rest := Decode(s[Front(s).size..]).value;
    assert Decode(s).value == [Front(s).value] + rest;
    assert Decode(s).value[0] == Front(s).value;
    assert forall v :: v in rest ==> v in Decode(s).value;
  }

  lemma {:induction false} DisplayableIsFixed(s: string)
    requires IsBytes(s) && IsDisplayable(s)
    ensures Safe(s) == s
    decreases |s|
  {
    if s != "" {
      var n := Front(s).size;
      DisplayableStep(s);
      var t := s[n..];
      DisplayableIsFixed(t);
      assert Printed(s) == (s[..n], n);
      Rejoin(s, n);
    }
  }

  lemma {:induction false} SafeIsBytes(s: string)
    requires IsBytes(s)
    ensures IsBytes(Safe(s))
    decreases |s|
  {
    if s != "" {
      var piece, n := Printed(s).0, Printed(s).1;
      var t := s[n..];
      SafeIsBytes(t);
      PieceIsBytes(s);
      assert Safe(s) == piece + Safe(t);
    }
  }

  lemma PieceIsBytes(s: string)
    requires IsBytes(s) && s != ""
    ensures IsBytes(Printed(s).0)
  {
    if Front(s).Unit? {
      EscapesAreBytes(s[..Front(s).size]);
    }
  }

  lemma EscapesAreBytes(s: string)
    requires IsBytes(s)
    ensures IsBytes(EscapeBytes(s))
  {
    if s != "" {
      EscapesAreBytes(s[1..]);
    }
  }

  /** Printing is idempotent, and leaves a text alone exactly when it is already displayable. */
  lemma SafeIsIdempotent(s: string)
    requires IsBytes(s)
    ensures IsBytes(Safe(s)) && Safe(Safe(s)) == Safe(s)
    ensures Safe(s) == s <==> IsDisplayable(s)
  {
    SafeIsDisplayable(s);
    SafeIsBytes(s);
    DisplayableIsFixed(Safe(s));
    if IsDisplayable(s) {
      DisplayableIsFixed(s);
    }
  }

  predicate IsPrintable(v: int) {
    v >= 0x20 && !(0x7F <= v <= 0x9F) && !(0x202A <= v <= 0x202E) && !(0x2066 <= v <= 0x2069)
  }

  /** What is printed consists of printable characters, and is the text itself exactly if that does. */
  lemma PrintedExactly(s: string)
    requires IsBytes(s)
    ensures Decode(Safe(s)).Some? && forall v :: v in Decode(Safe(s)).value ==> IsPrintable(v)
    ensures Safe(s) == s <==> Decode(s).Some? && forall v :: v in Decode(s).value ==> IsPrintable(v)
  {
    SafeIsDisplayable(s);
    SafeIsIdempotent(s);
    hide Safe, Decode;
    NoNegatives(s);
    NoNegatives(Safe(s));
  }

  lemma NoNegatives(s: string)
    ensures Decode(s).Some? ==> forall v :: v in Decode(s).value ==> v >= 0
  {
    if Decode(s).Some? {
      DecodeIsInverse(s, Decode(s).value);
      var vs := Decode(s).value;
      assert AreScalars(vs);
    }
  }

  /* Reading a diagnostic back. */

  predicate IsHex(c: char) {
    '0' <= c <= '9' || 'a' <= c <= 'f'
  }

  function HexValue(c: char): (d: nat)
    requires IsHex(c)
    ensures d < 16
  {
    if c <= '9' then c as int - '0' as int else 10 + (c as int - 'a' as int)
  }

  predicate IsEscape(s: string) {
    |s| >= 4 && s[0] == '\\' && s[1] == 'x' && IsHex(s[2]) && IsHex(s[3])
  }

  /** Every \xHH is the byte that its digits say. */
  function Unescaped(s: string): string {
    if s == "" then ""
    else if IsEscape(s) then [(16 * HexValue(s[2]) + HexValue(s[3])) as char] + Unescaped(s[4..])
    else [s[0]] + Unescaped(s[1..])
  }

  lemma DigitReadsBack(d: int)
    requires 0 <= d < 16
    ensures IsHex(HexDigit(d)) && HexValue(HexDigit(d)) == d
  {
  }

  lemma EscapeReadsBack(c: char, rest: string)
    requires c as int <= 0xFF
    ensures Unescaped(EscapeByte(c) + rest) == [c] + Unescaped(rest)
  {
    DigitReadsBack(c as int / 16);
    DigitReadsBack(c as int % 16);
    hide HexDigit, HexValue, IsHex;
    var e := EscapeByte(c) + rest;
    assert e[..4] == EscapeByte(c) && e[4..] == rest && e[2] == EscapeByte(c)[2] && e[3] == EscapeByte(c)[3];
    assert 16 * (c as int / 16) + c as int % 16 == c as int;
  }

  lemma EscapesSplit(s: string)
    requires IsBytes(s) && s != ""
    ensures EscapeBytes(s) == EscapeByte(s[0]) + EscapeBytes(s[1..])
  {
  }

  lemma Regroup(a: string, b: string, c: string)
    ensures (a + b) + c == a + (b + c)
  {
  }

  lemma {:induction false} EscapesReadBack(s: string, rest: string)
    requires IsBytes(s)
    ensures Unescaped(EscapeBytes(s) + rest) == s + Unescaped(rest)
  {
    if s == "" {
      assert "" + rest == rest && "" + Unescaped(rest) == Unescaped(rest);
    } else {
      EscapesReadBack(s[1..], rest);
      EscapesSplit(s);
      hide Unescaped, EscapeBytes, EscapeByte;
      EscapeReadsBack(s[0], EscapeBytes(s[1..]) + rest);
      Regroup(EscapeByte(s[0]), EscapeBytes(s[1..]), rest);
      Regroup([s[0]], s[1..], Unescaped(rest));
      assert s == [s[0]] + s[1..];
    }
  }

  lemma {:induction false} PlainReadsBack(s: string, rest: string)
    requires '\\' !in s
    ensures Unescaped(s + rest) == s + Unescaped(rest)
  {
    if s == "" {
      assert "" + rest == rest && "" + Unescaped(rest) == Unescaped(rest);
    } else {
      assert '\\' != s[0] && forall c :: c in s[1..] ==> c in s;
      PlainReadsBack(s[1..], rest);
      assert (s + rest)[1..] == s[1..] + rest && (s + rest)[0] == s[0];
      hide Unescaped;
      assert [s[0]] + (s[1..] + Unescaped(rest)) == s + Unescaped(rest);
    }
  }

  lemma PieceReadsBack(s: string, rest: string)
    requires IsBytes(s) && s != "" && '\\' !in s[..Printed(s).1]
    ensures Unescaped(Printed(s).0 + rest) == s[..Printed(s).1] + Unescaped(rest)
  {
    hide Unescaped, EscapeByte, EscapeBytes, Front;
    if Front(s).Bad? {
      EscapeReadsBack(s[0], rest);
      assert s[..1] == [s[0]];
    } else if IsControl(Front(s).value) || IsBidiControl(Front(s).value) {
      EscapesReadBack(s[..Front(s).size], rest);
    } else {
      PlainReadsBack(s[..Front(s).size], rest);
    }
  }

  /** What is printed for a text without backslashes tells the text: no two of them print alike. */
  lemma {:induction false} SafeReadsBack(s: string)
    requires IsBytes(s) && '\\' !in s
    ensures Unescaped(Safe(s)) == s
    decreases |s|
  {
    if s != "" {
      hide Unescaped, Printed, IsBytes;
      var n := Printed(s).1;
      var front, rest := s[..n], s[n..];
      PartsOf(s, n);
      PieceReadsBack(s, Safe(rest));
      SafeReadsBack(rest);
    } else {
      assert Safe(s) == "";
    }
  }

  lemma PartsOf(s: string, n: nat)
    requires n <= |s| && IsBytes(s) && '\\' !in s
    ensures s == s[..n] + s[n..] && IsBytes(s[n..]) && '\\' !in s[..n] && '\\' !in s[n..]
  {
    assert forall c :: c in s[..n] || c in s[n..] ==> c in s;
  }
}
