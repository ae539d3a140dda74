/** UTF-8 as RFC 3629 defines it.

    A std::string is a Dafny string with one char per byte, so a char above 255 never occurs in
    a well-formed text. Two independent references are given, the ABNF of section 4 and the bit
    layout of section 3, and the decoder shared by the two hand-written loops of the program is
    proved to compute their inverse. */
module Utf8 {

  import opened Wrappers

  /** A Unicode scalar value. */
  predicate IsScalar(v: int) {
    0 <= v <= 0x10FFFF && !(0xD800 <= v <= 0xDFFF)
  }

  /** UTF8-tail of section 4. */
  predicate IsTail(c: char) {
    0x80 <= c as int <= 0xBF
  }

  /** UTF8-char of section 4: the four alternatives, byte range by byte range. */
  predicate IsUtf8Char(s: string) {
    || (|s| == 1 && s[0] as int <= 0x7F)
    || (|s| == 2 && 0xC2 <= s[0] as int <= 0xDF && IsTail(s[1]))
    || (|s| == 3 && IsTail(s[2]) &&
        (|| (s[0] as int == 0xE0 && 0xA0 <= s[1] as int <= 0xBF)
         || (0xE1 <= s[0] as int <= 0xEC && IsTail(s[1]))
         || (s[0] as int == 0xED && 0x80 <= s[1] as int <= 0x9F)
         || (0xEE <= s[0] as int <= 0xEF && IsTail(s[1]))))
    || (|s| == 4 && IsTail(s[2]) && IsTail(s[3]) &&
        (|| (s[0] as int == 0xF0 && 0x90 <= s[1] as int <= 0xBF)
         || (0xF1 <= s[0] as int <= 0xF3 && IsTail(s[1]))
         || (s[0] as int == 0xF4 && 0x80 <= s[1] as int <= 0x8F)))
  }

  /** UTF8-octets of section 4: any number of UTF8-char. */
  ghost predicate IsUtf8(s: string) {
    s == "" || exists k: nat :: 1 <= k <= |s| && IsUtf8Char(s[..k]) && IsUtf8(s[k..])
  }

  /** The octets that the table of section 3 assigns to a scalar value. */
  function Encode(v: int): string
    requires IsScalar(v)
  {
    if v < 0x80 then [v as char]
    else if v < 0x800 then [(0xC0 + v / 0x40) as char, (0x80 + v % 0x40) as char]
    else if v < 0x10000 then
      [(0xE0 + v / 0x1000) as char, (0x80 + v / 0x40 % 0x40) as char, (0x80 + v % 0x40) as char]
    else
      [(0xF0 + v / 0x40000) as char, (0x80 + v / 0x1000 % 0x40) as char,
       (0x80 + v / 0x40 % 0x40) as char, (0x80 + v % 0x40) as char]
  }

  predicate AreScalars(vs: seq<int>) {
    forall v :: v in vs ==> IsScalar(v)
  }

  function EncodeAll(vs: seq<int>): string
    requires AreScalars(vs)
  {
    if vs == [] then "" else Encode(vs[0]) + EncodeAll(vs[1..])
  }

  /* The decoder's steps, in the order both loops take them. */

  /** Length announced by a lead byte; 0 for a byte that cannot start a character. */
  function LeadSize(c: char): (n: nat)
    ensures n <= 4
  {
    var b := c as int;
    if b < 0x80 then 1
    else if 0xC2 <= b <= 0xDF then 2
    else if 0xE0 <= b <= 0xEF then 3
    else if 0xF0 <= b <= 0xF4 then 4
    else 0
  }

  /** The payload bits of a lead byte. */
  function LeadBits(c: char): int {
    var b := c as int;
    if b < 0x80 then b else if b < 0xE0 then b % 0x20 else if b < 0xF0 then b % 0x10 else b % 8
  }

  /** Smallest value that needs n bytes. */
  function Minimum(n: nat): int {
    if n == 2 then 0x80 else if n == 3 then 0x800 else if n == 4 then 0x10000 else 0
  }

  predicate IsContinuation(c: char) {
    c as int / 0x40 == 2
  }

  /** Shifts the continuation bytes of s into value; None at a byte that is not one. */
  function Fold(value: int, s: string): Option<int>
    decreases |s|
  {
    if s == "" then Some(value)
    else if !IsContinuation(s[0]) then None
    else Fold(value * 0x40 + s[0] as int % 0x40, s[1..])
  }

  datatype Unit = Bad | Unit(value: int, size: nat)

  /** The character at the front of s. */
  function Front(s: string): (u: Unit)
    requires s != ""
    ensures u.Unit? ==> 1 <= u.size <= 4 && u.size <= |s|
  {
    var n := LeadSize(s[0]);
    if n == 0 || |s| < n then Bad
    else
      match Fold(LeadBits(s[0]), s[1..n])
      case None => Bad
      case Some(v) => if Minimum(n) <= v && IsScalar(v) then Unit(v, n) else Bad
  }

  /** The scalar values of s, or None when s is not UTF-8. */
  function Decode(s: string): Option<seq<int>>
    decreases |s|
  {
    if s == "" then Some([])
    else
      match Front(s)
      case Bad => None
      case Unit(v, n) =>
        match Decode(s[n..])
        case None => None
        case Some(vs) => Some([v] + vs)
  }

  /* One character. */

  lemma FoldSteps(value: int, s: string)
    requires |s| <= 3
    ensures |s| == 1 ==> Fold(value, s) ==
                         if IsContinuation(s[0]) then Some(value * 0x40 + s[0] as int % 0x40) else None
    ensures |s| == 2 ==> Fold(value, s) ==
                         if IsContinuation(s[0]) && IsContinuation(s[1])
                         then Some((value * 0x40 + s[0] as int % 0x40) * 0x40 + s[1] as int % 0x40) else None
    ensures |s| == 3 ==> Fold(value, s) ==
                         if IsContinuation(s[0]) && IsContinuation(s[1]) && IsContinuation(s[2])
                         then Some(((value * 0x40 + s[0] as int % 0x40) * 0x40 + s[1] as int % 0x40) * 0x40
                                   + s[2] as int % 0x40) else None
    decreases |s|
  {
    if |s| == 1 {
      assert Fold(value * 0x40 + s[0] as int % 0x40, s[1..]) == Some(value * 0x40 + s[0] as int % 0x40);
    } else if |s| == 2 {
      FoldSteps(value * 0x40 + s[0] as int % 0x40, s[1..]);
    } else if |s| == 3 {
      FoldSteps(value * 0x40 + s[0] as int % 0x40, s[1..]);
    }
  }

  lemma FrontFoldsTail(s: string)
    requires s != "" && 0 < LeadSize(s[0]) <= |s|
    ensures Fold(LeadBits(s[0]), s[1..LeadSize(s[0])]).Some? <==>
            forall i :: 1 <= i < LeadSize(s[0]) ==> IsContinuation(s[i])
  {
    var n := LeadSize(s[0]);
    var tail := s[1..n];
    FoldSteps(LeadBits(s[0]), tail);
    assert forall i :: 1 <= i < n ==> s[i] == tail[i - 1];
    assert n == 1 ==> tail == "";
  }

  /** The decoder recognises only UTF8-char productions. */
  lemma FrontIsSound(s: string)
    requires s != "" && Front(s).Unit?
    ensures IsUtf8Char(s[..Front(s).size])
  {
    FrontFoldsTail(s);
    var n := LeadSize(s[0]);
    FoldSteps(LeadBits(s[0]), s[1..n]);
  }

  lemma OneIsComplete(s: string)
    requires |s| >= 1 && s[0] as int <= 0x7F
    ensures Front(s).Unit? && Front(s).size == 1
  {
    assert s[1..1] == "";
  }

  lemma TwoIsComplete(s: string)
    requires |s| >= 2 && 0xC2 <= s[0] as int <= 0xDF && IsTail(s[1])
    ensures Front(s).Unit? && Front(s).size == 2
  {
    FoldSteps(LeadBits(s[0]), s[1..2]);
    assert s[1..2][0] == s[1];
  }

  lemma ThreeIsComplete(s: string)
    requires |s| >= 3 && 0xE0 <= s[0] as int <= 0xEF && IsTail(s[1]) && IsTail(s[2])
    requires (s[0] as int == 0xE0 ==> 0xA0 <= s[1] as int) && (s[0] as int == 0xED ==> s[1] as int <= 0x9F)
    ensures Front(s).Unit? && Front(s).size == 3
  {
    var tail := s[1..3];
    FoldSteps(LeadBits(s[0]), tail);
    assert tail[0] == s[1] && tail[1] == s[2];
    hide Fold;
  }

  lemma FourIsComplete(s: string)
    requires |s| >= 4 && 0xF0 <= s[0] as int <= 0xF4 && IsTail(s[1]) && IsTail(s[2]) && IsTail(s[3])
    requires (s[0] as int == 0xF0 ==> 0x90 <= s[1] as int) && (s[0] as int == 0xF4 ==> s[1] as int <= 0x8F)
    ensures Front(s).Unit? && Front(s).size == 4
  {
    var tail := s[1..4];
    FoldSteps(LeadBits(s[0]), tail);
    assert tail[0] == s[1] && tail[1] == s[2] && tail[2] == s[3];
    hide Fold;
  }

  /** It recognises every one of them, wherever it starts, and with the right length. */
  lemma FrontIsComplete(s: string, k: nat)
    requires 1 <= k <= |s| && IsUtf8Char(s[..k])
    ensures Front(s).Unit? && Front(s).size == k
  {
    var c := s[..k];
    assert c[0] == s[0];
    if k == 1 {
      OneIsComplete(s);
    } else if k == 2 {
      assert c[1] == s[1];
      TwoIsComplete(s);
    } else if k == 3 {
      assert c[1] == s[1] && c[2] == s[2];
      ThreeIsComplete(s);
    } else {
      assert c[1] == s[1] && c[2] == s[2] && c[3] == s[3];
      FourIsComplete(s);
    }
  }

  lemma Recode2(h: int, a: int)
    requires 0 <= h < 0x20 && 0 <= a < 0x40 && 0x80 <= h * 0x40 + a
    ensures Encode(h * 0x40 + a) == [(0xC0 + h) as char, (0x80 + a) as char]
  {
  }

  lemma Recode3(h: int, a: int, b: int)
    requires 0 <= h < 0x10 && 0 <= a < 0x40 && 0 <= b < 0x40
    requires 0x800 <= (h * 0x40 + a) * 0x40 + b && IsScalar((h * 0x40 + a) * 0x40 + b)
    ensures Encode((h * 0x40 + a) * 0x40 + b) == [(0xE0 + h) as char, (0x80 + a) as char, (0x80 + b) as char]
  {
    var v := (h * 0x40 + a) * 0x40 + b;
    assert v / 0x40 == h * 0x40 + a && v % 0x40 == b;
    assert v / 0x1000 == h;
  }

  lemma Recode4(h: int, a: int, b: int, c: int)
    requires 0 <= h < 8 && 0 <= a < 0x40 && 0 <= b < 0x40 && 0 <= c < 0x40
    requires 0x10000 <= ((h * 0x40 + a) * 0x40 + b) * 0x40 + c <= 0x10FFFF
    ensures Encode(((h * 0x40 + a) * 0x40 + b) * 0x40 + c) ==
            [(0xF0 + h) as char, (0x80 + a) as char, (0x80 + b) as char, (0x80 + c) as char]
  {
    var v := ((h * 0x40 + a) * 0x40 + b) * 0x40 + c;
    assert v / 0x40 == (h * 0x40 + a) * 0x40 + b && v % 0x40 == c;
    assert v / 0x1000 == h * 0x40 + a;
    assert v / 0x40000 == h;
  }

  lemma ByteParts(c: char)
    ensures IsContinuation(c) ==> c as int == 0x80 + c as int % 0x40
    ensures LeadSize(c) == 2 ==> c as int == 0xC0 + LeadBits(c) && 0 <= LeadBits(c) < 0x20
    ensures LeadSize(c) == 3 ==> c as int == 0xE0 + LeadBits(c) && 0 <= LeadBits(c) < 0x10
    ensures LeadSize(c) == 4 ==> c as int == 0xF0 + LeadBits(c) && 0 <= LeadBits(c) < 8
  {
  }

  /** A recognised character is the encoding of the value the decoder returns for it. */
  lemma FrontIsEncoding(s: string)
    requires s != "" && Front(s).Unit?
    ensures IsScalar(Front(s).value) && Encode(Front(s).value) == s[..Front(s).size]
  {
    var n := LeadSize(s[0]);
    if n == 1 {
      assert s[1..1] == "" && s[..1] == [s[0]];
    } else if n == 2 {
      TwoIsEncoding(s);
    } else if n == 3 {
      ThreeIsEncoding(s);
    } else {
      FourIsEncoding(s);
    }
  }

  lemma TwoIsEncoding(s: string)
    requires s != "" && Front(s).Unit? && LeadSize(s[0]) == 2
    ensures IsScalar(Front(s).value) && Encode(Front(s).value) == s[..2]
  {
    var lead, tail := LeadBits(s[0]), s[1..2];
    FoldSteps(lead, tail);
    hide Fold;
    assert tail[0] == s[1];
    ByteParts(s[0]);
    ByteParts(s[1]);
    Recode2(lead, s[1] as int % 0x40);
    hide Encode;
  }

  lemma ThreeIsEncoding(s: string)
    requires s != "" && Front(s).Unit? && LeadSize(s[0]) == 3
    ensures IsScalar(Front(s).value) && Encode(Front(s).value) == s[..3]
  {
    var lead, tail := LeadBits(s[0]), s[1..3];
    FoldSteps(lead, tail);
    hide Fold;
    assert tail[0] == s[1] && tail[1] == s[2];
    ByteParts(s[0]);
    ByteParts(s[1]);
    ByteParts(s[2]);
    Recode3(lead, s[1] as int % 0x40, s[2] as int % 0x40);
    hide Encode;
  }

  lemma FourIsEncoding(s: string)
    requires s != "" && Front(s).Unit? && LeadSize(s[0]) == 4
    ensures IsScalar(Front(s).value) && Encode(Front(s).value) == s[..4]
  {
    var lead, tail := LeadBits(s[0]), s[1..4];
    FoldSteps(lead, tail);
    hide Fold;
    assert tail[0] == s[1] && tail[1] == s[2] && tail[2] == s[3];
    ByteParts(s[0]);
    ByteParts(s[1]);
    ByteParts(s[2]);
    ByteParts(s[3]);
    Recode4(lead, s[1] as int % 0x40, s[2] as int % 0x40, s[3] as int % 0x40);
    hide Encode;
  }

  /** Decoding an encoded value in front of anything gives that value and consumes its bytes. */
  lemma EncodingAtFront(v: int, t: string)
    requires IsScalar(v)
    ensures Front(Encode(v) + t) == Unit(v, |Encode(v)|)
  {
    var e := Encode(v);
    var s := e + t;
    assert s[0] == e[0];
    EncodedLead(v);
    assert s[1..|e|] == e[1..];
    EncodedTail(v);
  }

  lemma EncodedLead(v: int)
    requires IsScalar(v)
    ensures LeadSize(Encode(v)[0]) == |Encode(v)|
    ensures LeadBits(Encode(v)[0]) ==
            if v < 0x80 then v else if v < 0x800 then v / 0x40 else if v < 0x10000 then v / 0x1000 else v / 0x40000
  {
  }

  lemma SixBitDigits(v: int)
    requires 0 <= v
    ensures v == v / 0x40 * 0x40 + v % 0x40
    ensures v / 0x40 == v / 0x1000 * 0x40 + v / 0x40 % 0x40
    ensures v / 0x1000 == v / 0x40000 * 0x40 + v / 0x1000 % 0x40
  {
  }

  lemma EncodedTail(v: int)
    requires IsScalar(v)
    ensures Fold(LeadBits(Encode(v)[0]), Encode(v)[1..]) == Some(v)
  {
    EncodedLead(v);
    SixBitDigits(v);
    var e := Encode(v);
    var bits, tail := LeadBits(e[0]), e[1..];
    FoldSteps(bits, tail);
    assert |tail| >= 1 ==> tail[0] == e[1] && IsContinuation(e[1]);
    assert |tail| >= 2 ==> tail[1] == e[2] && IsContinuation(e[2]);
    assert |tail| >= 3 ==> tail[2] == e[3] && IsContinuation(e[3]);
  }

  /* Whole texts. */

  /** Decode accepts exactly UTF8-octets. */
  lemma {:induction false} DecodeIsGrammar(s: string)
    ensures Decode(s).Some? <==> IsUtf8(s)
    decreases |s|
  {
    if s != "" {
      match Front(s)
      case Bad =>
        forall k: nat | 1 <= k <= |s| && IsUtf8Char(s[..k])
          ensures false
        {
          FrontIsComplete(s, k);
        }
      case Unit(v, n) =>
        DecodeIsGrammar(s[n..]);
        FrontIsSound(s);
        forall k: nat | 1 <= k <= |s| && IsUtf8Char(s[..k])
          ensures k == n
        {
          FrontIsComplete(s, k);
        }
    }
  }

  lemma Rejoin(s: string, n: nat)
    requires n <= |s|
    ensures s[..n] + s[n..] == s
  {
  }

  lemma EncodeAllStep(v: int, vs: seq<int>)
    requires IsScalar(v) && AreScalars(vs)
    ensures AreScalars([v] + vs) && EncodeAll([v] + vs) == Encode(v) + EncodeAll(vs)
  {
    assert ([v] + vs)[1..] == vs;
  }

  /** What decodes to vs is the encoding of vs. */
  lemma {:induction false} DecodedIsEncoding(s: string)
    requires Decode(s).Some?
    ensures AreScalars(Decode(s).value) && EncodeAll(Decode(s).value) == s
    decreases |s|
  {
    if s != "" {
      FrontIsEncoding(s);
      var v, n := Front(s).value, Front(s).size;
      var t := s[n..];
      DecodedIsEncoding(t);
      EncodeAllStep(v, Decode(t).value);
      Rejoin(s, n);
    }
  }

  /** The encoding of vs decodes to vs. */
  lemma {:induction false} EncodingDecodes(vs: seq<int>)
    requires AreScalars(vs)
    ensures Decode(EncodeAll(vs)) == Some(vs)
  {
    if vs != [] {
      var rest := EncodeAll(vs[1..]);
      EncodingAtFront(vs[0], rest);
      assert EncodeAll(vs)[|Encode(vs[0])|..] == rest;
      EncodingDecodes(vs[1..]);
      assert vs == [vs[0]] + vs[1..];
    }
  }

  /** Decode inverts EncodeAll and accepts nothing else. */
  lemma DecodeIsInverse(s: string, vs: seq<int>)
    ensures Decode(s) == Some(vs) <==> AreScalars(vs) && EncodeAll(vs) == s
  {
    if Decode(s) == Some(vs) {
      DecodedIsEncoding(s);
    }
    if AreScalars(vs) && EncodeAll(vs) == s {
      EncodingDecodes(vs);
    }
  }

  /** The decoder looks no further than the bytes of the character it returns. */
  lemma FrontIsLocal(a: string, b: string)
    requires a != "" && Front(a).Unit?
    ensures Front(a + b) == Front(a)
  {
    var n := LeadSize(a[0]);
    assert (a + b)[1..n] == a[1..n];
  }

  /** An ASCII byte ends every character before it, complete or not. */
  lemma FrontBeforeAscii(a: string, c: char, b: string)
    requires a != "" && c as int < 0x80
    ensures Front(a + [c] + b) == Front(a)
  {
    var s := a + [c] + b;
    var n := LeadSize(s[0]);
    if 0 < n <= |a| {
      assert s[1..n] == a[1..n];
    } else if |a| < n <= |s| {
      FoldSteps(LeadBits(s[0]), s[1..n]);
      assert s[1..n][|a| - 1] == c;
    }
  }

  /** Well-formed texts concatenate, and nothing can be appended to repair or spoil one. */
  lemma {:induction false} DecodeAppend(a: string, b: string)
    requires Decode(a).Some?
    ensures Decode(a + b) == if Decode(b).Some? then Some(Decode(a).value + Decode(b).value) else None
    decreases |a|
  {
    if a == "" {
      assert a + b == b;
      assert Decode(b).Some? ==> [] + Decode(b).value == Decode(b).value;
    } else {
      var n := Front(a).size;
      FrontIsLocal(a, b);
      assert (a + b)[n..] == a[n..] + b;
      DecodeAppend(a[n..], b);
      PrependAssociates(Front(a).value, Decode(a[n..]).value, b);
    }
  }

  lemma PrependAssociates(v: int, us: seq<int>, b: string)
    ensures Decode(b).Some? ==> [v] + (us + Decode(b).value) == [v] + us + Decode(b).value
  {
  }

  /** Cutting at an ASCII byte cuts between characters (self-synchronisation). */
  lemma {:induction false} DecodeAroundAscii(a: string, c: char, b: string)
    requires c as int < 0x80
    ensures Decode(a + [c] + b) ==
            if Decode(a).Some? && Decode(b).Some?
            then Some(Decode(a).value + [c as int] + Decode(b).value) else None
    decreases |a|
  {
    var s := a + [c] + b;
    if Decode(a).Some? {
      assert s == a + ([c] + b);
      DecodeAppend(a, [c] + b);
      assert Front([c] + b) == Unit(c as int, 1);
      assert ([c] + b)[1..] == b;
      if Decode(b).Some? {
        assert Decode(a).value + ([c as int] + Decode(b).value) == Decode(a).value + [c as int] + Decode(b).value;
      }
    } else {
      FrontBeforeAscii(a, c, b);
      if Front(a).Unit? {
        var n := Front(a).size;
        assert s[n..] == a[n..] + [c] + b;
        DecodeAroundAscii(a[n..], c, b);
      }
    }
  }
}
