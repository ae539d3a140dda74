/** Renaming the product in message catalogues (mb/tools/branding_strings.py).

    Trees are those of xml.etree: text is what precedes the first child, tail what follows the element.
    Serialising an element is taken to tell apart any two values of it. */
module BrandingStrings {

  import opened Tokens
  import opened Wrappers

  /** A comment's tag is not a string. */
  datatype Tag = Named(name: string) | Comment

  datatype Tree = Tree(tag: Tag, attributes: map<string, string>, text: Option<string>, tail: Option<string>,
                       children: seq<Tree>)

  datatype Product = Product(fullName: string, shortName: string, isWord: char -> bool, isSpace: char -> bool)

  datatype Error = UnexpectedChildren | NoLeadingToken

  const PROTECTED_IDS: set<string> := {
    "IDS_ABOUT_VERSION_COMPANY_NAME", "IDS_ABOUT_VERSION_COPYRIGHT",
    "IDS_ABOUT_CROS_VERSION_LICENSE", "IDS_ABOUT_CROS_WITH_LINUX_VERSION_LICENSE"
  }

  const LICENSE_IDS: set<string> := {
    "IDS_VERSION_UI_LICENSE", "IDS_VERSION_UI_LICENSE_CHROMIUM", "IDS_VERSION_UI_LICENSE_OTHER"
  }

  /** What is known about the product and Python's character classes. */
  ghost predicate IsProduct(p: Product) {
    AreClasses(p.isWord, p.isSpace) && IsFree(p.isWord, false, p.fullName)
  }

  /* The kinds of messages. */

  predicate Contains(s: string, t: string)
    decreases |s|
  {
    t <= s || (s != "" && Contains(s[1..], t))
  }

  function NameOf(attributes: map<string, string>): string {
    if "name" in attributes then attributes["name"] else ""
  }

  datatype Kind = Other | Protected | ProductName | License | Ordinary

  function KindOf(tag: Tag, attributes: map<string, string>): Kind {
    var name := NameOf(attributes);
    if tag != Named("message") then Other
    else if name in PROTECTED_IDS || Contains(name, "COPYRIGHT") then Protected
    else if name in {"IDS_PRODUCT_NAME", "IDS_SHORT_PRODUCT_NAME"} then ProductName
    else if name in LICENSE_IDS then License
    else Ordinary
  }

  function TreeKind(t: Tree): Kind {
    KindOf(t.tag, t.attributes)
  }

  /** What rewrite does not enter. */
  predicate IsSkipped(tag: Tag) {
    tag in {Comment, Named("ph"), Named("ex")}
  }

  /* The texts. */

  function TextOr(text: Option<string>): string {
    if text.Some? then text.value else ""
  }

  function SubText(p: Product, text: Option<string>): Option<string> {
    if text.Some? then Some(Sub(p.isWord, false, text.value, p.fullName)) else None
  }

  /** text[:len(text) - len(text.lstrip())] */
  function Leading(isSpace: char -> bool, s: string): string
    decreases |s|
  {
    if s == "" || !isSpace(s[0]) then "" else [s[0]] + Leading(isSpace, s[1..])
  }

  /** text[len(text.rstrip()):] */
  function Trailing(isSpace: char -> bool, s: string): string
    decreases |s|
  {
    if s == "" || !isSpace(s[|s| - 1]) then "" else Trailing(isSpace, s[..|s| - 1]) + [s[|s| - 1]]
  }

  lemma {:induction false} LeadingIsPrefix(isSpace: char -> bool, s: string)
    ensures |Leading(isSpace, s)| <= |s| && s[..|Leading(isSpace, s)|] == Leading(isSpace, s)
    ensures forall c :: c in Leading(isSpace, s) ==> isSpace(c)
    decreases |s|
  {
    if s != "" && isSpace(s[0]) {
      LeadingIsPrefix(isSpace, s[1..]);
    }
  }

  /** re.match(r"\s*Chromium\b", text); whitespace is not part of a word, so it cannot give any back. */
  predicate LeadsWithToken(p: Product, s: string) {
    LeadingIsPrefix(p.isSpace, s);
    IsToken(p.isWord, false, s[|Leading(p.isSpace, s)|..])
  }

  /** The text that a message of the kind gets in place of text. */
  function OwnText(p: Product, kind: Kind, name: string, text: Option<string>): Option<string> {
    match kind
    case ProductName =>
      var value := if name == "IDS_PRODUCT_NAME" then p.fullName else p.shortName;
      Some(Leading(p.isSpace, TextOr(text)) + value + Trailing(p.isSpace, TextOr(text)))
    case License => Some(SubFirst(p.isWord, false, TextOr(text), p.fullName))
    case Ordinary => SubText(p, text)
    case _ => text
  }

  /* The transformation, on values. */

  /** rewrite, which leaves the tail of its own node alone. */
  function Rewritten(p: Product, t: Tree): Tree {
    if IsSkipped(t.tag) then t
    else
      t.(text := SubText(p, t.text),
         children := seq(|t.children|, i requires 0 <= i < |t.children| =>
           Rewritten(p, t.children[i]).(tail := SubText(p, t.children[i].tail))))
  }

  /** One round of transform. */
  function Processed(p: Product, t: Tree): Result<Tree, Error> {
    match TreeKind(t)
    case ProductName =>
      if t.children != [] then Err(UnexpectedChildren)
      else Ok(t.(text := OwnText(p, ProductName, NameOf(t.attributes), t.text)))
    case License =>
      if !LeadsWithToken(p, TextOr(t.text)) then Err(NoLeadingToken)
      else Ok(t.(text := OwnText(p, License, "", t.text)))
    case Ordinary => Ok(Rewritten(p, t))
    case _ => Ok(t)
  }

  function Height(t: Tree): nat {
    1 + Highest(t.children)
  }

  function Highest(ts: seq<Tree>): nat {
    if ts == [] then 0
    else
      var a, b := Height(ts[0]), Highest(ts[1..]);
      if a < b then b else a
  }

  lemma {:induction false} RewrittenHeight(p: Product, t: Tree)
    ensures Height(Rewritten(p, t)) == Height(t)
  {
    if !IsSkipped(t.tag) {
      var r := Rewritten(p, t);
      forall i | 0 <= i < |t.children|
        ensures Height(r.children[i]) == Height(t.children[i])
      {
        RewrittenHeight(p, t.children[i]);
      }
      SameHighest(t.children, r.children);
    }
  }

  lemma {:induction false} SameHighest(ts: seq<Tree>, us: seq<Tree>)
    requires |ts| == |us| && forall i :: 0 <= i < |ts| ==> Height(ts[i]) == Height(us[i])
    ensures Highest(ts) == Highest(us)
  {
    if ts != [] {
      forall i | 0 <= i < |ts| - 1
        ensures Height(ts[1..][i]) == Height(us[1..][i])
      {
        assert ts[1..][i] == ts[i + 1] && us[1..][i] == us[i + 1];
      }
      SameHighest(ts[1..], us[1..]);
    }
  }

  lemma ProcessedHeight(p: Product, t: Tree)
    requires Processed(p, t).Ok?
    ensures Highest(Processed(p, t).value.children) == Highest(t.children)
  {
    RewrittenHeight(p, t);
  }

  datatype Done = Done(tree: Tree, changed: seq<string>)

  datatype AllDone = AllDone(trees: seq<Tree>, changed: seq<string>)

  /** transform: messages are met in document order, and a message inside another is met after it. */
  function Transformed(p: Product, t: Tree): Result<Done, Error>
    decreases Height(t), 0
  {
    match Processed(p, t)
    case Err(e) => Err(e)
    case Ok(t1) =>
      ProcessedHeight(p, t);
      match TransformedAll(p, t1.children)
      case Err(e) => Err(e)
      case Ok(all) => Ok(Done(t1.(children := all.trees), (if t1 != t then [NameOf(t.attributes)] else []) + all.changed))
  }

  function TransformedAll(p: Product, ts: seq<Tree>): Result<AllDone, Error>
    decreases Highest(ts), 1 + |ts|
  {
    if ts == [] then Ok(AllDone([], []))
    else
      match Transformed(p, ts[0])
      case Err(e) => Err(e)
      case Ok(first) =>
        match TransformedAll(p, ts[1..])
        case Err(e) => Err(e)
        case Ok(rest) => Ok(AllDone([first.tree] + rest.trees, first.changed + rest.changed))
  }

  /* Every node of the result. A path leads from the root to a node by child positions. */

  predicate Has(t: Tree, path: seq<nat>)
    decreases |path|
  {
    path == [] || (path[0] < |t.children| && Has(t.children[path[0]], path[1..]))
  }

  function At(t: Tree, path: seq<nat>): Tree
    requires Has(t, path)
    decreases |path|
  {
    if path == [] then t else At(t.children[path[0]], path[1..])
  }

  /** No node above the end of the path is skipped. */
  predicate IsOpen(t: Tree, path: seq<nat>)
    requires Has(t, path)
    decreases |path|
  {
    path == [] || (!IsSkipped(t.tag) && IsOpen(t.children[path[0]], path[1..]))
  }

  /** Some ordinary message above the end of the path reaches it through nodes that are not skipped. */
  predicate IsReached(t: Tree, path: seq<nat>)
    requires Has(t, path)
    decreases |path|
  {
    path != [] && ((TreeKind(t) == Ordinary && IsOpen(t, path)) || IsReached(t.children[path[0]], path[1..]))
  }

  /** The text and tail at the end of a path once the messages above it are done. */
  function TextAbove(p: Product, t: Tree, path: seq<nat>, reached: bool): Option<string>
    requires Has(t, path)
  {
    if reached && !IsSkipped(At(t, path).tag) then SubText(p, At(t, path).text) else At(t, path).text
  }

  function TailAbove(p: Product, t: Tree, path: seq<nat>, reached: bool): Option<string>
    requires Has(t, path)
  {
    if reached then SubText(p, At(t, path).tail) else At(t, path).tail
  }

  predicate IsSameButText(t: Tree, u: Tree) {
    u.tag == t.tag && u.attributes == t.attributes && |u.children| == |t.children|
  }

  /** rewrite at every node. */
  lemma {:induction false} RewrittenAt(p: Product, t: Tree, path: seq<nat>)
    requires Has(t, path)
    ensures Has(Rewritten(p, t), path)
    ensures var n, m := At(t, path), At(Rewritten(p, t), path);
            && IsSameButText(n, m)
            && m.text == TextAbove(p, t, path, IsOpen(t, path))
            && m.tail == TailAbove(p, t, path, path != [] && IsOpen(t, path))
    ensures IsOpen(Rewritten(p, t), path) == IsOpen(t, path) && IsReached(Rewritten(p, t), path) == IsReached(t, path)
    decreases |path|
  {
    if path != [] && !IsSkipped(t.tag) {
      var c := t.children[path[0]];
      RewrittenAt(p, c, path[1..]);
      RetailedAt(Rewritten(p, c), SubText(p, c.tail), path[1..]);
    }
  }

  lemma RetailedAt(t: Tree, tail: Option<string>, path: seq<nat>)
    requires Has(t, path)
    ensures var u := t.(tail := tail);
            && Has(u, path) && At(u, path) == (if path == [] then u else At(t, path))
            && IsOpen(u, path) == IsOpen(t, path) && IsReached(u, path) == IsReached(t, path)
  {
  }

  lemma SubTextTwice(p: Product, text: Option<string>)
    requires IsProduct(p)
    ensures SubText(p, SubText(p, text)) == SubText(p, text)
  {
    if text.Some? { SubIsIdempotent(p.isWord, p.isSpace, text.value, p.fullName); }
  }

  lemma {:induction false} TransformedAllAt(p: Product, ts: seq<Tree>, i: nat)
    requires TransformedAll(p, ts).Ok? && i < |ts|
    ensures |TransformedAll(p, ts).value.trees| == |ts|
    ensures Transformed(p, ts[i]).Ok? && TransformedAll(p, ts).value.trees[i] == Transformed(p, ts[i]).value.tree
  {
    if i > 0 {
      TransformedAllAt(p, ts[1..], i - 1);
    } else if |ts| > 1 {
      TransformedAllAt(p, ts[1..], 0);
    }
  }

  lemma TransformedParts(p: Product, t: Tree)
    requires Transformed(p, t).Ok?
    ensures Processed(p, t).Ok?
    ensures var t1, u := Processed(p, t).value, Transformed(p, t).value.tree;
            && u.tag == t.tag && u.attributes == t.attributes && u.tail == t.tail
            && u.text == OwnText(p, TreeKind(t), NameOf(t.attributes), t.text)
            && |u.children| == |t1.children| == |t.children|
            && (forall i :: 0 <= i < |t1.children| ==>
                  Transformed(p, t1.children[i]).Ok? && u.children[i] == Transformed(p, t1.children[i]).value.tree)
            && (TreeKind(t) == Ordinary ==> t1 == Rewritten(p, t))
            && (TreeKind(t) != Ordinary ==> t1.children == t.children)
  {
    var t1 := Processed(p, t).value;
    var all := TransformedAll(p, t1.children).value;
    assert Transformed(p, t).value.tree == t1.(children := all.trees);
    hide Transformed, TransformedAll;
    forall i | 0 <= i < |t1.children|
      ensures |all.trees| == |t1.children| && Transformed(p, t1.children[i]).Ok?
              && all.trees[i] == Transformed(p, t1.children[i]).value.tree
    {
      TransformedAllAt(p, t1.children, i);
    }
    NoTrees(p);
  }

  lemma NoTrees(p: Product)
    ensures TransformedAll(p, []) == Ok(AllDone([], []))
  {
  }

  /** The round for one message, seen from a node below it. */
  lemma ChildAt(p: Product, t: Tree, path: seq<nat>)
    requires IsProduct(p) && Processed(p, t).Ok? && Has(t, path) && path != []
    ensures path[0] < |Processed(p, t).value.children|
    ensures var c, rest := Processed(p, t).value.children[path[0]], path[1..];
            && Has(c, rest) && IsSameButText(At(t, path), At(c, rest))
            && TextAbove(p, c, rest, IsReached(c, rest)) == TextAbove(p, t, path, IsReached(t, path))
            && TailAbove(p, c, rest, IsReached(c, rest)) == TailAbove(p, t, path, IsReached(t, path))
  {
    var c, rest := t.children[path[0]], path[1..];
    if TreeKind(t) == Ordinary {
      RewrittenAt(p, t, path);
      RewrittenAt(p, c, rest);
      RetailedAt(Rewritten(p, c), SubText(p, c.tail), rest);
      hide SubText;
      SubTextTwice(p, At(c, rest).text);
      SubTextTwice(p, At(c, rest).tail);
    }
  }

  /** transform at every node: names, attributes and order stay; a tail is changed exactly if an ordinary
      message reaches it; a text is changed by the messages that reach it and then, if the node is a
      message itself, as its own kind says. */
  lemma {:induction false} TransformedAt(p: Product, t: Tree, path: seq<nat>)
    requires IsProduct(p) && Transformed(p, t).Ok? && Has(t, path)
    ensures Has(Transformed(p, t).value.tree, path)
    ensures var n, m := At(t, path), At(Transformed(p, t).value.tree, path);
            && IsSameButText(n, m)
            && m.tail == TailAbove(p, t, path, IsReached(t, path))
            && m.text == OwnText(p, TreeKind(n), NameOf(n.attributes), TextAbove(p, t, path, IsReached(t, path)))
    decreases |path|
  {
    TransformedParts(p, t);
    if path != [] {
      ChildAt(p, t, path);
      var t1, u := Processed(p, t).value, Transformed(p, t).value.tree;
      var c1 := t1.children[path[0]];
      hide Processed, Transformed, TextAbove, TailAbove, IsReached, OwnText, KindOf;
      TransformedAt(p, c1, path[1..]);
      assert At(u, path) == At(u.children[path[0]], path[1..]);
    }
  }

  /* What that means. */

  predicate HasToken(p: Product, text: Option<string>) {
    text.Some? && !IsFree(p.isWord, false, text.value)
  }

  lemma SubTextIsClean(p: Product, text: Option<string>)
    requires IsProduct(p)
    ensures !HasToken(p, SubText(p, text))
    ensures SubText(p, text) == text <==> !HasToken(p, text)
  {
    if text.Some? {
      SubIsFree(p.isWord, p.isSpace, false, text.value, p.fullName);
      SubIsIdempotent(p.isWord, p.isSpace, text.value, p.fullName);
    }
  }

  /** A node that is no message, or a protected one, keeps its text unless an ordinary message reaches
      it and the text holds the word; any node keeps its tail unless one reaches it and the tail does. */
  lemma KeptExactly(p: Product, t: Tree, path: seq<nat>)
    requires IsProduct(p) && Transformed(p, t).Ok? && Has(t, path)
    ensures Has(Transformed(p, t).value.tree, path)
    ensures var n, m := At(t, path), At(Transformed(p, t).value.tree, path);
            && (TreeKind(n) in {Other, Protected} ==>
                  (m.text == n.text <==> !(IsReached(t, path) && !IsSkipped(n.tag) && HasToken(p, n.text))))
            && (m.tail == n.tail <==> !(IsReached(t, path) && HasToken(p, n.tail)))
  {
    hide SubText, HasToken;
    TransformedAt(p, t, path);
    SubTextIsClean(p, At(t, path).text);
    SubTextIsClean(p, At(t, path).tail);
  }

  /** Messages are not inside messages. */
  predicate IsFlat(t: Tree, inside: bool) {
    && (t.tag == Named("message") ==> !inside)
    && forall i :: 0 <= i < |t.children| ==> IsFlat(t.children[i], inside || t.tag == Named("message"))
  }

  /** Where messages are not nested, none reaches another. */
  lemma {:induction false} FlatIsNotReached(t: Tree, inside: bool, path: seq<nat>)
    requires IsFlat(t, inside) && Has(t, path) && At(t, path).tag == Named("message")
    ensures !IsReached(t, path) && !inside && (path == [] || t.tag != Named("message"))
    decreases |path|
  {
    if path != [] {
      FlatIsNotReached(t.children[path[0]], inside || t.tag == Named("message"), path[1..]);
    }
  }

  /** No message of a kind that is changed. */
  predicate IsQuiet(t: Tree) {
    TreeKind(t) in {Other, Protected} && forall i :: 0 <= i < |t.children| ==> IsQuiet(t.children[i])
  }

  lemma {:induction false} QuietIsKept(p: Product, t: Tree)
    requires IsQuiet(t)
    ensures Transformed(p, t) == Ok(Done(t, []))
  {
    QuietAreKept(p, t.children);
    assert Processed(p, t) == Ok(t);
    var none: seq<string> := [];
    assert t.(children := t.children) == t && none + [] == none;
  }

  lemma {:induction false} QuietAreKept(p: Product, ts: seq<Tree>)
    requires forall i :: 0 <= i < |ts| ==> IsQuiet(ts[i])
    ensures TransformedAll(p, ts) == Ok(AllDone(ts, []))
  {
    if ts != [] {
      QuietIsKept(p, ts[0]);
      QuietAreKept(p, ts[1..]);
      assert [ts[0]] + ts[1..] == ts;
    }
  }

  const NESTED := Tree(Named("message"), map["name" := "IDS_ABOUT_VERSION_COMPANY_NAME"], Some(CHROMIUM), None, [])

  const NESTING := Tree(Named("message"), map[], None, None, [NESTED])

  lemma NestedKinds()
    ensures TreeKind(NESTED) == Protected && TreeKind(NESTING) == Ordinary
  {
    assert NESTED.attributes["name"] == "IDS_ABOUT_VERSION_COMPANY_NAME";
    assert NameOf(NESTED.attributes) in PROTECTED_IDS;
    assert NameOf(NESTING.attributes) == "" && !Contains("", "COPYRIGHT");
  }

  /** A protected message is therefore not safe inside an ordinary one. */
  lemma NestedProtectedIsRewritten(p: Product)
    requires IsProduct(p)
    ensures TreeKind(NESTED) == Protected && Transformed(p, NESTING).Ok?
    ensures var u := Transformed(p, NESTING).value.tree; |u.children| == 1 && u.children[0].text == Some(p.fullName)
  {
    NestedKinds();
    assert CHROMIUM[..8] == CHROMIUM && CHROMIUM[8..] == "" && p.fullName + "" == p.fullName;
    assert Sub(p.isWord, false, CHROMIUM, p.fullName) == p.fullName;
    var inner := Rewritten(p, NESTED);
    assert Rewritten(p, NESTING).children == [inner] && inner.text == Some(p.fullName);
    assert Processed(p, NESTING) == Ok(Rewritten(p, NESTING));
    assert IsQuiet(inner);
    hide Processed, Rewritten, KindOf;
    QuietAreKept(p, [inner]);
  }

  lemma {:induction false} RewrittenSubtree(p: Product, t: Tree, path: seq<nat>)
    requires Has(t, path) && (IsOpen(t, path) ==> IsSkipped(At(t, path).tag))
    ensures Has(Rewritten(p, t), path)
    ensures At(Rewritten(p, t), path) == At(t, path).(tail := TailAbove(p, t, path, path != [] && IsOpen(t, path)))
    decreases |path|
  {
    if path != [] && !IsSkipped(t.tag) {
      var c := t.children[path[0]];
      RewrittenSubtree(p, c, path[1..]);
      RetailedAt(Rewritten(p, c), SubText(p, c.tail), path[1..]);
    }
  }

  /** A subtree without changing messages, such as a protected message, that no ordinary message
      reaches, and every ph, ex and comment, is kept whole but for its own tail. */
  lemma {:induction false} SubtreeIsKept(p: Product, t: Tree, path: seq<nat>)
    requires IsProduct(p) && Transformed(p, t).Ok? && Has(t, path)
    requires IsQuiet(At(t, path)) && (IsReached(t, path) ==> IsSkipped(At(t, path).tag))
    ensures Has(Transformed(p, t).value.tree, path)
    ensures At(Transformed(p, t).value.tree, path) == At(t, path).(tail := TailAbove(p, t, path, IsReached(t, path)))
    decreases |path|
  {
    if path == [] {
      QuietIsKept(p, t);
    } else {
      TransformedParts(p, t);
      ChildAt(p, t, path);
      ChildSubtree(p, t, path);
      var u, c := Transformed(p, t).value.tree, Processed(p, t).value.children[path[0]];
      hide Processed, Transformed, TailAbove, IsReached, KindOf, Rewritten;
      SubtreeIsKept(p, c, path[1..]);
      assert At(u, path) == At(u.children[path[0]], path[1..]);
    }
  }

  lemma ChildSubtree(p: Product, t: Tree, path: seq<nat>)
    requires Processed(p, t).Ok? && Has(t, path) && path != [] && path[0] < |Processed(p, t).value.children|
    requires IsQuiet(At(t, path)) && (IsReached(t, path) ==> IsSkipped(At(t, path).tag))
    ensures var c, rest := Processed(p, t).value.children[path[0]], path[1..];
            && Has(c, rest)
            && At(c, rest).(tail := None) == At(t, path).(tail := None)
            && IsQuiet(At(c, rest)) && (IsReached(c, rest) ==> IsReached(t, path))
  {
    if TreeKind(t) == Ordinary {
      var c, rest := t.children[path[0]], path[1..];
      RewrittenSubtree(p, t, path);
      RewrittenAt(p, c, rest);
      RetailedAt(Rewritten(p, c), SubText(p, c.tail), rest);
    }
  }

  /** No whole word is left in the text of an ordinary message, in a text that one reaches outside the
      subtrees it does not enter, nor in any tail that one reaches. */
  lemma NoTokenIsLeft(p: Product, t: Tree, path: seq<nat>)
    requires IsProduct(p) && Transformed(p, t).Ok? && Has(t, path)
    ensures Has(Transformed(p, t).value.tree, path)
    ensures var n, m := At(t, path), At(Transformed(p, t).value.tree, path);
            && (TreeKind(n) == Ordinary ==> !HasToken(p, m.text))
            && (TreeKind(n) in {Other, Protected} && IsReached(t, path) && !IsSkipped(n.tag) ==> !HasToken(p, m.text))
            && (IsReached(t, path) ==> !HasToken(p, m.tail))
  {
    hide SubText, HasToken;
    TransformedAt(p, t, path);
    SubTextIsClean(p, TextAbove(p, t, path, IsReached(t, path)));
    SubTextIsClean(p, At(t, path).text);
    SubTextIsClean(p, At(t, path).tail);
  }

  /** On an ordinary message the transformation is idempotent. */
  lemma {:induction false} RewrittenIsFixed(p: Product, t: Tree)
    requires IsProduct(p)
    ensures Rewritten(p, Rewritten(p, t)) == Rewritten(p, t)
  {
    if !IsSkipped(t.tag) {
      var r := Rewritten(p, t);
      SubTextTwice(p, t.text);
      forall i | 0 <= i < |t.children|
        ensures Rewritten(p, r).children[i] == r.children[i]
      {
        RewrittenIsFixed(p, t.children[i]);
        SubTextTwice(p, t.children[i].tail);
        OtherTail(p, Rewritten(p, t.children[i]), SubText(p, t.children[i].tail));
      }
      assert Rewritten(p, r).children == r.children;
    }
  }

  lemma OtherTail(p: Product, t: Tree, tail: Option<string>)
    ensures Rewritten(p, t.(tail := tail)) == Rewritten(p, t).(tail := tail)
  {
  }

  /** A license message changes only in the name that it leads with. */
  lemma OnlyTheLeadingName(p: Product, text: string)
    requires IsProduct(p) && LeadsWithToken(p, text)
    ensures var blank := Leading(p.isSpace, text);
            && blank + CHROMIUM <= text
            && OwnText(p, License, "", Some(text)) == Some(blank + p.fullName + text[|blank| + 8..])
  {
    var blank := Leading(p.isSpace, text);
    LeadingIsPrefix(p.isSpace, text);
    var rest := text[|blank| + 8..];
    assert text[|blank|..][..8] == text[|blank|..|blank| + 8];
    assert text == blank + CHROMIUM + rest;
    OnlyTheLeadingOne(p.isWord, p.isSpace, blank, rest, p.fullName);
  }
}
