/** The scanner that limits nesting and number length before JSON is parsed (mb/tools/check_upstream.py).

    A Python str is a sequence of code points, as is a Dafny string. str.isdigit also accepts digits
    outside ASCII; it is a parameter of which only the ASCII part is fixed. */
module JsonLimits {

  import opened Wrappers

  const MAX_DEPTH := 64
  const MAX_DIGITS := 1000

  /* The scanner. */

  predicate IsAsciiDigit(c: char) {
    '0' <= c <= '9'
  }

  /** What is known about str.isdigit. */
  ghost predicate IsDigitTest(isDigit: char -> bool) {
    forall c: char :: c as int < 128 ==> (isDigit(c) <==> IsAsciiDigit(c))
  }

  predicate IsDelimiter(c: char) {
    c in {' ', '\t', '\r', '\n', ',', ']', '}', ':'}
  }

  /** The length of what precedes the first delimiter. */
  function Token(s: string): (n: nat)
    ensures n <= |s|
  {
    if s == "" || IsDelimiter(s[0]) then 0 else 1 + Token(s[1..])
  }

  function Digits(isDigit: char -> bool, s: string): nat {
    if s == "" then 0 else (if isDigit(s[0]) then 1 else 0) + Digits(isDigit, s[1..])
  }

  /** Whether the scanner accepts the rest of a text. */
  function Scan(isDigit: char -> bool, s: string, depth: int, inString: bool, escaped: bool): bool
    decreases |s|
  {
    if s == "" then true
    else if inString then
      Scan(isDigit, s[1..], depth, escaped || s[0] != '\"', !escaped && s[0] == '\\')
    else if s[0] == '\"' then Scan(isDigit, s[1..], depth, true, false)
    else if s[0] in {'[', '{'} then depth + 1 <= MAX_DEPTH && Scan(isDigit, s[1..], depth + 1, false, false)
    else if s[0] in {']', '}'} then Scan(isDigit, s[1..], depth - 1, false, false)
    else if s[0] == '-' || isDigit(s[0]) then
      var end := 1 + Token(s[1..]);
      Digits(isDigit, s[..end]) <= MAX_DIGITS && Scan(isDigit, s[end..], depth, false, false)
    else Scan(isDigit, s[1..], depth, false, false)
  }

  /* The rounds of the outer loop, one kind of character each. */

  lemma OpenStep(isDigit: char -> bool, s: string, depth: int)
    requires s != "" && s[0] in {'[', '{'}
    ensures Scan(isDigit, s, depth, false, false) == (depth + 1 <= MAX_DEPTH && Scan(isDigit, s[1..], depth + 1, false, false))
  {
  }

  lemma CloseStep(isDigit: char -> bool, s: string, depth: int)
    requires s != "" && s[0] in {']', '}'}
    ensures Scan(isDigit, s, depth, false, false) == Scan(isDigit, s[1..], depth - 1, false, false)
  {
  }

  predicate IsStructural(c: char) {
    c in {'\"', '[', '{', ']', '}'}
  }

  predicate StartsNumber(isDigit: char -> bool, c: char) {
    !IsStructural(c) && (c == '-' || isDigit(c))
  }

  lemma NumberStep(isDigit: char -> bool, s: string, depth: int)
    requires s != "" && StartsNumber(isDigit, s[0])
    ensures var end := 1 + Token(s[1..]);
            (Scan(isDigit, s, depth, false, false)
             <==> Digits(isDigit, s[..end]) <= MAX_DIGITS && Scan(isDigit, s[end..], depth, false, false))
  {
  }

  lemma OtherStep(isDigit: char -> bool, s: string, depth: int)
    requires s != "" && !IsStructural(s[0]) && !StartsNumber(isDigit, s[0])
    ensures Scan(isDigit, s, depth, false, false) == Scan(isDigit, s[1..], depth, false, false)
  {
  }

  /** Whether the scanner accepts what is left of a text from index on. */
  ghost predicate Accepts(isDigit: char -> bool, text: string, index: nat, depth: int, inString: bool, escaped: bool)
    requires index <= |text|
  {
    Scan(isDigit, text[index..], depth, inString, escaped)
  }

  function EndOf(text: string, index: nat): (end: nat)
    requires index < |text|
    ensures index < end <= |text|
  {
    index + 1 + Token(text[index + 1..])
  }

  lemma Start(isDigit: char -> bool, text: string)
    ensures Accepts(isDigit, text, 0, 0, false, false) == Scan(isDigit, text, 0, false, false)
  {
    assert text[0..] == text;
  }

  /** One round of the outer loop, for any character that does not start a number. */
  lemma Round(isDigit: char -> bool, text: string, index: nat, depth: int, inString: bool, escaped: bool)
    requires index < |text| && (inString || !StartsNumber(isDigit, text[index]))
    ensures var c := text[index];
            Accepts(isDigit, text, index, depth, inString, escaped) ==
              if inString then Accepts(isDigit, text, index + 1, depth, escaped || c != '\"', !escaped && c == '\\')
              else if c == '\"' then Accepts(isDigit, text, index + 1, depth, true, false)
              else if c in {'[', '{'} then depth + 1 <= MAX_DEPTH && Accepts(isDigit, text, index + 1, depth + 1, false, false)
              else if c in {']', '}'} then Accepts(isDigit, text, index + 1, depth - 1, false, false)
              else Accepts(isDigit, text, index + 1, depth, false, false)
  {
  }

  lemma NumberRound(isDigit: char -> bool, text: string, index: nat, depth: int)
    requires index < |text| && StartsNumber(isDigit, text[index])
    ensures var end := EndOf(text, index);
            (Accepts(isDigit, text, index, depth, false, false)
             <==> Digits(isDigit, text[index..end]) <= MAX_DIGITS && Accepts(isDigit, text, end, depth, false, false))
  {
    NumberStep(isDigit, text[index..], depth);
    hide Scan, Digits;
    var end := EndOf(text, index);
    assert text[index..][1..] == text[index + 1..];
    assert text[index..][..end - index] == text[index..end] && text[index..][end - index..] == text[end..];
  }

  /** The inner loop: the end of the token that starts at index. */
  method FindEnd(text: string, index: nat) returns (end: nat)
    requires index < |text|
    ensures end == EndOf(text, index)
  {
    end := index + 1;
    while end < |text| && !IsDelimiter(text[end])
      invariant index + 1 <= end <= |text|
      invariant end + Token(text[end..]) == index + 1 + Token(text[index + 1..])
    {
      assert text[end..][1..] == text[end + 1..];
      end := end + 1;
    }
  }

  /** validate_json_limits; ok is false where the source raises ValueError. */
  method ValidateJsonLimits(isDigit: char -> bool, text: string) returns (ok: bool)
    ensures ok == Scan(isDigit, text, 0, false, false)
  {
    var depth, inString, escaped, index := 0, false, false, 0;
    Start(isDigit, text);
    hide Scan, Digits, EndOf, Accepts;
    while index < |text|
      invariant 0 <= index <= |text|
      invariant escaped ==> inString
      invariant Accepts(isDigit, text, index, depth, inString, escaped) == Scan(isDigit, text, 0, false, false)
    {
      var c := text[index];
      if inString || !StartsNumber(isDigit, c) {
        Round(isDigit, text, index, depth, inString, escaped);
      }
      if inString {
        if escaped {
          escaped := false;
        } else if c == '\\' {
          escaped := true;
        } else if c == '\"' {
          inString := false;
        }
        index := index + 1;
        continue;
      }
      if c == '\"' {
        inString := true;
      } else if c in {'[', '{'} {
        depth := depth + 1;
        if depth > MAX_DEPTH { return false; }
      } else if c in {']', '}'} {
        depth := depth - 1;
      } else if c == '-' || isDigit(c) {
        NumberRound(isDigit, text, index, depth);
        var end := FindEnd(text, index);
        if Digits(isDigit, text[index..end]) > MAX_DIGITS { return false; }
        index := end - 1;
      }
      index := index + 1;
    }
    Finish(isDigit, text, depth, inString, escaped);
    return true;
  }

  lemma Finish(isDigit: char -> bool, text: string, depth: int, inString: bool, escaped: bool)
    ensures Accepts(isDigit, text, |text|, depth, inString, escaped)
  {
    assert text[|text|..] == "";
  }

  /* The grammar of sections 2 to 7 of RFC 8259. Trees keep every character of the text: a structural
     character with the whitespace around it is split between the items on its two sides. */

  datatype Piece = Unescaped(c: char) | Escape(c: char) | Hex(digits: string)

  datatype Exponent = Exponent(e: char, sign: string, digits: string)

  datatype Numeral = Numeral(minus: bool, whole: string, fraction: Option<string>, exponent: Option<Exponent>)

  datatype Key = Key(before: string, pieces: seq<Piece>, after: string)

  datatype Value =
    | Literal(name: string)
    | Number(numeral: Numeral)
    | String(pieces: seq<Piece>)
    | Array(blank: string, items: Items)
    | Object(blank: string, items: Items)

  /** key is there for the members of an object. blank above is the whitespace of an empty one. */
  datatype Items = End | Item(key: Option<Key>, before: string, value: Value, after: string, rest: Items)

  predicate IsBlank(s: string) {
    forall c :: c in s ==> c in {' ', '\t', '\n', '\r'}
  }

  predicate AreDigits(s: string) {
    s != "" && forall c :: c in s ==> IsAsciiDigit(c)
  }

  predicate IsPiece(p: Piece) {
    match p
    case Unescaped(c) => c != '\"' && c != '\\' && 0x20 <= c as int
    case Escape(c) => c in {'\"', '\\', '/', 'b', 'f', 'n', 'r', 't'}
    case Hex(digits) => |digits| == 4 && forall d :: d in digits ==> IsAsciiDigit(d) || 'a' <= d <= 'f' || 'A' <= d <= 'F'
  }

  predicate ArePieces(pieces: seq<Piece>) {
    forall p :: p in pieces ==> IsPiece(p)
  }

  predicate IsNumeral(n: Numeral) {
    && AreDigits(n.whole) && (n.whole[0] == '0' ==> n.whole == "0")
    && (n.fraction.Some? ==> AreDigits(n.fraction.value))
    && (n.exponent.Some? ==>
          n.exponent.value.e in {'e', 'E'} && n.exponent.value.sign in {"", "+", "-"} && AreDigits(n.exponent.value.digits))
  }

  predicate IsValue(v: Value) {
    match v
    case Literal(name) => name in {"false", "null", "true"}
    case Number(numeral) => IsNumeral(numeral)
    case String(pieces) => ArePieces(pieces)
    case Array(blank, items) => IsBlank(blank) && AreItems(items, false)
    case Object(blank, items) => IsBlank(blank) && AreItems(items, true)
  }

  predicate AreItems(items: Items, keyed: bool) {
    items.Item? ==>
      && items.key.Some? == keyed
      && (keyed ==> IsBlank(items.key.value.before) && ArePieces(items.key.value.pieces) && IsBlank(items.key.value.after))
      && IsBlank(items.before) && IsValue(items.value) && IsBlank(items.after) && AreItems(items.rest, keyed)
  }

  /* What a tree spells. */

  function PieceText(p: Piece): string {
    match p
    case Unescaped(c) => [c]
    case Escape(c) => ['\\', c]
    case Hex(digits) => "\\u" + digits
  }

  function PiecesText(pieces: seq<Piece>): string {
    if pieces == [] then "" else PieceText(pieces[0]) + PiecesText(pieces[1..])
  }

  function FractionText(n: Numeral): string {
    if n.fraction.Some? then "." + n.fraction.value else ""
  }

  function ExponentText(n: Numeral): string {
    if n.exponent.Some? then [n.exponent.value.e] + n.exponent.value.sign + n.exponent.value.digits else ""
  }

  function NumeralText(n: Numeral): string {
    (if n.minus then "-" else "") + n.whole + FractionText(n) + ExponentText(n)
  }

  function KeyText(key: Option<Key>): string {
    if key.None? then ""
    else key.value.before + ("\"" + PiecesText(key.value.pieces) + "\"" + (key.value.after + ":"))
  }

  function Text(v: Value): string {
    match v
    case Literal(name) => name
    case Number(numeral) => NumeralText(numeral)
    case String(pieces) => "\"" + PiecesText(pieces) + "\""
    case Array(blank, items) => "[" + (if items.End? then blank else ItemsText(items)) + "]"
    case Object(blank, items) => "{" + (if items.End? then blank else ItemsText(items)) + "}"
  }

  function ItemsText(items: Items): string {
    if items.End? then ""
    else
      KeyText(items.key)
      + (items.before + (Text(items.value) + (items.after + (if items.rest.End? then "" else "," + ItemsText(items.rest)))))
  }

  /* What the limits are about. */

  function Nesting(v: Value): nat {
    match v
    case Array(_, items) => 1 + ItemsNesting(items)
    case Object(_, items) => 1 + ItemsNesting(items)
    case _ => 0
  }

  function ItemsNesting(items: Items): nat {
    if items.End? then 0
    else
      var a, b := Nesting(items.value), ItemsNesting(items.rest);
      if a < b then b else a
  }

  function NumeralDigits(n: Numeral): nat {
    |n.whole|
    + (if n.fraction.Some? then |n.fraction.value| else 0)
    + (if n.exponent.Some? then |n.exponent.value.digits| else 0)
  }

  /** No number has more digits than the limit. */
  predicate IsShort(v: Value) {
    match v
    case Number(numeral) => NumeralDigits(numeral) <= 1000
    case Array(_, items) => AreShort(items)
    case Object(_, items) => AreShort(items)
    case _ => true
  }

  predicate AreShort(items: Items) {
    items.Item? ==> IsShort(items.value) && AreShort(items.rest)
  }

  /* The scanner on each part of a text. */

  predicate IsInert(c: char) {
    c as int < 128 && c !in {'\"', '[', '{', ']', '}', '-'} && !IsAsciiDigit(c)
  }

  lemma BlankIsInert(s: string)
    requires IsBlank(s)
    ensures forall c :: c in s ==> IsInert(c)
    ensures s != "" ==> IsDelimiter(s[0])
  {
    if s != "" { assert s[0] in s; }
  }

  lemma {:induction false} ScanInert(isDigit: char -> bool, s: string, r: string, depth: int)
    requires IsDigitTest(isDigit) && forall c :: c in s ==> IsInert(c)
    ensures Scan(isDigit, s + r, depth, false, false) == Scan(isDigit, r, depth, false, false)
  {
    if s == "" {
      assert s + r == r;
    } else {
      assert (s + r)[1..] == s[1..] + r;
      assert s[0] in s && forall c :: c in s[1..] ==> c in s;
      ScanInert(isDigit, s[1..], r, depth);
      OtherStep(isDigit, s + r, depth);
    }
  }

  /** A piece leaves the scanner inside its string. */
  lemma ScanPiece(isDigit: char -> bool, p: Piece, r: string, depth: int)
    requires IsPiece(p)
    ensures Scan(isDigit, PieceText(p) + r, depth, true, false) == Scan(isDigit, r, depth, true, false)
  {
    var s := PieceText(p) + r;
    match p {
      case Unescaped(c) => assert s[1..] == r;
      case Escape(c) => assert s[1..][1..] == r;
      case Hex(digits) =>
        assert s[1..][1..] == digits + r;
        ScanPlain(isDigit, digits, r, depth);
    }
  }

  lemma {:induction false} ScanPlain(isDigit: char -> bool, s: string, r: string, depth: int)
    requires forall c :: c in s ==> c != '\"' && c != '\\'
    ensures Scan(isDigit, s + r, depth, true, false) == Scan(isDigit, r, depth, true, false)
  {
    if s == "" {
      assert s + r == r;
    } else {
      assert (s + r)[1..] == s[1..] + r;
      assert s[0] in s && forall c :: c in s[1..] ==> c in s;
      ScanPlain(isDigit, s[1..], r, depth);
    }
  }

  lemma {:induction false} ScanPieces(isDigit: char -> bool, pieces: seq<Piece>, r: string, depth: int)
    requires ArePieces(pieces)
    ensures Scan(isDigit, PiecesText(pieces) + "\"" + r, depth, true, false) == Scan(isDigit, r, depth, false, false)
  {
    if pieces == [] {
      assert (PiecesText(pieces) + "\"" + r)[1..] == r;
    } else {
      var rest := PiecesText(pieces[1..]) + "\"" + r;
      assert PiecesText(pieces) + "\"" + r == PieceText(pieces[0]) + rest;
      ScanPiece(isDigit, pieces[0], rest, depth);
      ScanPieces(isDigit, pieces[1..], r, depth);
    }
  }

  /** Whatever a string holds, the scanner is back where it was after it. */
  lemma ScanString(isDigit: char -> bool, pieces: seq<Piece>, r: string, depth: int)
    requires ArePieces(pieces)
    ensures Scan(isDigit, "\"" + PiecesText(pieces) + "\"" + r, depth, false, false) == Scan(isDigit, r, depth, false, false)
  {
    assert ("\"" + PiecesText(pieces) + "\"" + r)[1..] == PiecesText(pieces) + "\"" + r;
    ScanPieces(isDigit, pieces, r, depth);
  }

  lemma {:induction false} TokenStops(s: string, r: string)
    requires forall c :: c in s ==> !IsDelimiter(c)
    requires r == "" || IsDelimiter(r[0])
    ensures Token(s + r) == |s|
  {
    if s == "" {
      assert s + r == r;
    } else {
      assert (s + r)[1..] == s[1..] + r;
      TokenStops(s[1..], r);
    }
  }

  lemma {:induction false} DigitsAdd(isDigit: char -> bool, s: string, t: string)
    ensures Digits(isDigit, s + t) == Digits(isDigit, s) + Digits(isDigit, t)
  {
    if s == "" {
      assert s + t == t;
    } else {
      assert (s + t)[1..] == s[1..] + t;
      DigitsAdd(isDigit, s[1..], t);
    }
  }

  lemma {:induction false} DigitsOfDigits(isDigit: char -> bool, s: string)
    requires IsDigitTest(isDigit) && forall c :: c in s ==> IsAsciiDigit(c)
    ensures Digits(isDigit, s) == |s|
  {
    if s != "" {
      assert s[0] in s && isDigit(s[0]);
      DigitsOfDigits(isDigit, s[1..]);
    }
  }

  lemma DigitsOfSign(isDigit: char -> bool, c: char)
    requires IsDigitTest(isDigit) && c in {'-', '+', '.', 'e', 'E'}
    ensures Digits(isDigit, [c]) == 0
  {
    assert !isDigit(c);
  }

  predicate IsNumberChar(c: char) {
    IsAsciiDigit(c) || c in {'-', '+', '.', 'e', 'E'}
  }

  lemma NumeralTextDigits(isDigit: char -> bool, n: Numeral)
    requires IsDigitTest(isDigit) && IsNumeral(n)
    ensures Digits(isDigit, NumeralText(n)) == NumeralDigits(n)
  {
    var minus := if n.minus then "-" else "";
    if n.minus { DigitsOfSign(isDigit, '-'); }
    DigitsAdd(isDigit, minus, n.whole);
    DigitsAdd(isDigit, minus + n.whole, FractionText(n));
    DigitsAdd(isDigit, minus + n.whole + FractionText(n), ExponentText(n));
    DigitsOfDigits(isDigit, n.whole);
    FractionDigits(isDigit, n);
    ExponentDigits(isDigit, n);
  }

  lemma FractionDigits(isDigit: char -> bool, n: Numeral)
    requires IsDigitTest(isDigit) && IsNumeral(n)
    ensures Digits(isDigit, FractionText(n)) == if n.fraction.Some? then |n.fraction.value| else 0
  {
    if n.fraction.Some? {
      DigitsOfSign(isDigit, '.');
      DigitsAdd(isDigit, ".", n.fraction.value);
      DigitsOfDigits(isDigit, n.fraction.value);
    }
  }

  lemma ExponentDigits(isDigit: char -> bool, n: Numeral)
    requires IsDigitTest(isDigit) && IsNumeral(n)
    ensures Digits(isDigit, ExponentText(n)) == if n.exponent.Some? then |n.exponent.value.digits| else 0
  {
    if n.exponent.Some? {
      var x := n.exponent.value;
      DigitsOfSign(isDigit, x.e);
      if x.sign != "" {
        assert x.sign == [x.sign[0]] && x.sign[0] in {'-', '+'};
        DigitsOfSign(isDigit, x.sign[0]);
      }
      DigitsAdd(isDigit, [x.e], x.sign);
      DigitsAdd(isDigit, [x.e] + x.sign, x.digits);
      DigitsOfDigits(isDigit, x.digits);
    }
  }

  lemma NumeralChars(n: Numeral)
    requires IsNumeral(n)
    ensures NumeralText(n) != "" && forall c :: c in NumeralText(n) ==> IsNumberChar(c)
    ensures NumeralText(n)[0] == '-' || IsAsciiDigit(NumeralText(n)[0])
  {
    assert forall c :: c in FractionText(n) ==> IsNumberChar(c);
    assert forall c :: c in ExponentText(n) ==> IsNumberChar(c);
    assert NumeralText(n)[0] == if n.minus then '-' else n.whole[0];
    assert n.whole[0] in n.whole;
  }

  /** A number is one token, of which exactly its own digits are counted. */
  lemma ScanNumber(isDigit: char -> bool, n: Numeral, r: string, depth: int)
    requires IsDigitTest(isDigit) && IsNumeral(n) && (r == "" || IsDelimiter(r[0]))
    ensures Scan(isDigit, NumeralText(n) + r, depth, false, false)
         == (NumeralDigits(n) <= MAX_DIGITS && Scan(isDigit, r, depth, false, false))
  {
    var t := NumeralText(n);
    hide IsNumeral, NumeralText, Scan, Digits;
    NumeralChars(n);
    NumeralTextDigits(isDigit, n);
    assert (t + r)[1..] == t[1..] + r;
    assert forall c :: c in t[1..] ==> c in t;
    assert forall c :: IsNumberChar(c) ==> !IsDelimiter(c);
    TokenStops(t[1..], r);
    NumberStep(isDigit, t + r, depth);
    assert (t + r)[..|t|] == t && (t + r)[|t|..] == r;
  }

  lemma ScanKey(isDigit: char -> bool, key: Option<Key>, r: string, depth: int)
    requires IsDigitTest(isDigit)
    requires key.Some? ==> IsBlank(key.value.before) && ArePieces(key.value.pieces) && IsBlank(key.value.after)
    ensures Scan(isDigit, KeyText(key) + r, depth, false, false) == Scan(isDigit, r, depth, false, false)
  {
    if key.None? {
      assert KeyText(key) + r == r;
    } else {
      var k := key.value;
      var tail := (k.after + ":") + r;
      BlankIsInert(k.before);
      BlankIsInert(k.after);
      hide Scan;
      assert KeyText(key) + r == k.before + ("\"" + PiecesText(k.pieces) + "\"" + tail);
      ScanInert(isDigit, k.before, "\"" + PiecesText(k.pieces) + "\"" + tail, depth);
      ScanString(isDigit, k.pieces, tail, depth);
      ScanInert(isDigit, k.after + ":", r, depth);
    }
  }

  lemma {:induction false} ScanValue(isDigit: char -> bool, v: Value, r: string, depth: int)
    requires IsDigitTest(isDigit) && IsValue(v) && depth <= MAX_DEPTH && (r == "" || IsDelimiter(r[0]))
    ensures Scan(isDigit, Text(v) + r, depth, false, false)
         == (depth + Nesting(v) <= MAX_DEPTH && IsShort(v) && Scan(isDigit, r, depth, false, false))
    decreases v, 2
  {
    match v {
      case Literal(name) => ScanInert(isDigit, name, r, depth);
      case Number(numeral) => ScanNumber(isDigit, numeral, r, depth);
      case String(pieces) => ScanString(isDigit, pieces, r, depth);
      case Array(blank, items) => ScanContainer(isDigit, v, "[", "]", r, depth);
      case Object(blank, items) => ScanContainer(isDigit, v, "{", "}", r, depth);
    }
  }

  lemma {:induction false} ScanContainer(isDigit: char -> bool, v: Value, open: string, close: string, r: string, depth: int)
    requires IsDigitTest(isDigit) && IsValue(v) && depth <= MAX_DEPTH
    requires (v.Array? && open == "[" && close == "]") || (v.Object? && open == "{" && close == "}")
    ensures Scan(isDigit, Text(v) + r, depth, false, false)
         == (depth + Nesting(v) <= MAX_DEPTH && IsShort(v) && Scan(isDigit, r, depth, false, false))
    decreases v, 1
  {
    var inner := if v.items.End? then v.blank else ItemsText(v.items);
    assert Text(v) == open + inner + close;
    assert Nesting(v) == 1 + ItemsNesting(v.items) && (IsShort(v) <==> AreShort(v.items));
    hide Scan, Text, ItemsText, Nesting, IsShort, IsValue;
    ScanBrackets(isDigit, open, inner, close, r, depth);
    if depth < MAX_DEPTH {
      ScanInner(isDigit, v, inner, close + r, depth + 1);
    }
  }

  lemma ScanBrackets(isDigit: char -> bool, open: string, inner: string, close: string, r: string, depth: int)
    requires (open == "[" && close == "]") || (open == "{" && close == "}")
    ensures Scan(isDigit, open + inner + close + r, depth, false, false)
         == (depth + 1 <= MAX_DEPTH && Scan(isDigit, inner + (close + r), depth + 1, false, false))
    ensures close + r != "" && IsDelimiter((close + r)[0])
    ensures Scan(isDigit, close + r, depth + 1, false, false) == Scan(isDigit, r, depth, false, false)
  {
    hide Scan;
    Regroup(open + inner, close, r);
    Regroup(open, inner, close + r);
    OpenStep(isDigit, open + (inner + (close + r)), depth);
    CloseStep(isDigit, close + r, depth + 1);
    assert (open + (inner + (close + r)))[1..] == inner + (close + r) && (close + r)[1..] == r;
  }

  lemma {:induction false} ScanInner(isDigit: char -> bool, v: Value, inner: string, r: string, depth: int)
    requires IsDigitTest(isDigit) && IsValue(v) && depth <= MAX_DEPTH && r != "" && IsDelimiter(r[0])
    requires (v.Array? || v.Object?) && inner == if v.items.End? then v.blank else ItemsText(v.items)
    ensures Scan(isDigit, inner + r, depth, false, false)
         == (depth + ItemsNesting(v.items) <= MAX_DEPTH && AreShort(v.items) && Scan(isDigit, r, depth, false, false))
    decreases v, 0
  {
    hide Scan, ItemsText, IsBlank, IsDelimiter;
    if v.items.End? {
      BlankIsInert(v.blank);
      ScanInert(isDigit, v.blank, r, depth);
    } else {
      ScanItems(isDigit, v.items, v.Object?, r, depth);
    }
  }

  lemma {:induction false} ScanItems(isDigit: char -> bool, items: Items, keyed: bool, r: string, depth: int)
    requires IsDigitTest(isDigit) && items.Item? && AreItems(items, keyed) && depth <= MAX_DEPTH && r != "" && IsDelimiter(r[0])
    ensures Scan(isDigit, ItemsText(items) + r, depth, false, false)
         == (depth + ItemsNesting(items) <= MAX_DEPTH && AreShort(items) && Scan(isDigit, r, depth, false, false))
    decreases items, 2
  {
    var rest := if items.rest.End? then r else "," + (ItemsText(items.rest) + r);
    ItemsTextParts(items, r);
    BlankIsInert(items.before);
    BlankIsInert(items.after);
    hide Scan, ItemsText, Text, KeyText, IsBlank;
    ScanKey(isDigit, items.key, items.before + (Text(items.value) + (items.after + rest)), depth);
    ScanInert(isDigit, items.before, Text(items.value) + (items.after + rest), depth);
    ScanValue(isDigit, items.value, items.after + rest, depth);
    ScanInert(isDigit, items.after, rest, depth);
    if items.rest.Item? {
      assert rest[1..] == ItemsText(items.rest) + r;
      ScanInert(isDigit, ",", ItemsText(items.rest) + r, depth);
      ScanItems(isDigit, items.rest, keyed, r, depth);
    }
  }

  lemma ItemsTextParts(items: Items, r: string)
    requires items.Item?
    ensures ItemsText(items) + r
         == KeyText(items.key) + (items.before + (Text(items.value) + (items.after
              + (if items.rest.End? then r else "," + (ItemsText(items.rest) + r)))))
  {
    var rest := if items.rest.End? then "" else "," + ItemsText(items.rest);
    var key, value := KeyText(items.key), Text(items.value);
    assert ItemsText(items) == key + (items.before + (value + (items.after + rest)));
    hide ItemsText, Text, KeyText;
    Regroup(",", ItemsText(items.rest), r);
    Regroup(items.after, rest, r);
    Regroup(value, items.after + rest, r);
    Regroup(items.before, value + (items.after + rest), r);
    Regroup(key, items.before + (value + (items.after + rest)), r);
    assert "" + r == r;
  }

  lemma Regroup(a: string, b: string, r: string)
    ensures (a + b) + r == a + (b + r)
  {
  }

  /** JSON-text: the limits are met exactly when nesting is at most 64 and no number has more than 1000
      digits, whatever brackets, quotes and escapes occur inside strings. */
  lemma ScannerAgreesWithGrammar(isDigit: char -> bool, before: string, v: Value, after: string)
    requires IsDigitTest(isDigit) && IsBlank(before) && IsValue(v) && IsBlank(after)
    ensures Scan(isDigit, before + Text(v) + after, 0, false, false) <==> Nesting(v) <= 64 && IsShort(v)
  {
    BlankIsInert(before);
    BlankIsInert(after);
    assert before + Text(v) + after == before + (Text(v) + after);
    ScanInert(isDigit, before, Text(v) + after, 0);
    ScanValue(isDigit, v, after, 0);
    assert after + "" == after;
    ScanInert(isDigit, after, "", 0);
  }

  /* Texts outside the grammar. */

  /** How many brackets more than are closed a text opens; below zero if it closes more. */
  function Balance(s: string): int {
    var m := multiset(s);
    (m['['] as int) + m['{'] - m[']'] - m['}']
  }

  function Weight(c: char): int {
    if c in {'[', '{'} then 1 else if c in {']', '}'} then -1 else 0
  }

  lemma BalanceSplit(c: char, s: string)
    ensures Balance([c] + s) == Weight(c) + Balance(s)
  {
    assert multiset([c] + s) == multiset{c} + multiset(s);
  }

  /** No part that s starts with leaves more than 64 brackets open, counting from depth. */
  ghost predicate StaysWithin(s: string, depth: int) {
    forall i :: 0 <= i <= |s| ==> depth + Balance(s[..i]) <= 64
  }

  lemma BalanceAt(s: string, i: nat)
    requires i < |s|
    ensures Balance(s[..i + 1]) == Weight(s[0]) + Balance(s[1..][..i])
  {
    BalanceSplit(s[0], s[1..][..i]);
    assert s[..i + 1] == [s[0]] + s[1..][..i];
  }

  lemma WithinNext(s: string, depth: int)
    requires s != "" && depth <= 64
    ensures StaysWithin(s, depth) <==> StaysWithin(s[1..], depth + Weight(s[0]))
  {
    assert Balance(s[..0]) == 0;
    hide Balance, Weight;
    var rest := s[1..];
    if StaysWithin(s, depth) {
      forall i | 0 <= i <= |rest|
        ensures depth + Weight(s[0]) + Balance(rest[..i]) <= 64
      {
        BalanceAt(s, i);
      }
    }
    if StaysWithin(rest, depth + Weight(s[0])) {
      forall i | 0 <= i <= |s|
        ensures depth + Balance(s[..i]) <= 64
      {
        if i > 0 { BalanceAt(s, i - 1); }
      }
    }
  }

  lemma WithinStart(s: string, depth: int)
    ensures StaysWithin(s, depth) ==> depth <= 64
    ensures s == "" ==> (StaysWithin(s, depth) <==> depth <= 64)
  {
    assert Balance(s[..0]) == 0;
  }

  /** In brackets without strings and numbers, balanced or not, a text is refused exactly if some part that it
      starts with leaves more than 64 brackets open; closing brackets count even where nothing is open. */
  lemma {:induction false} DepthIsBalance(isDigit: char -> bool, s: string, depth: int)
    requires depth <= 64 && forall i :: 0 <= i < |s| ==> s[i] != '\"' && !StartsNumber(isDigit, s[i])
    ensures Scan(isDigit, s, depth, false, false) <==> StaysWithin(s, depth)
  {
    WithinStart(s, depth);
    if s != "" {
      WithinNext(s, depth);
      hide StaysWithin;
      var next := depth + Weight(s[0]);
      WithinStart(s[1..], next);
      if next <= 64 { DepthIsBalance(isDigit, s[1..], next); }
    }
  }
}
