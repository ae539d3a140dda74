/** The element tree that the string tool edits in place (mb/tools/branding_strings.py). */
module MessageTree {

  import opened BrandingStrings
  import opened Tokens
  import opened Wrappers

  /** An element. Its texts are assigned; its tag, attributes and children never are. */
  class Element {
    const tag: Tag
    const attributes: map<string, string>
    var text: Option<string>
    var tail: Option<string>
    const children: seq<Element>
    ghost const nodes: set<Element>

    constructor (tag: Tag, attributes: map<string, string>, text: Option<string>, tail: Option<string>, children: seq<Element>)
      requires forall i :: 0 <= i < |children| ==> children[i].Valid()
      requires forall i, j :: 0 <= i < j < |children| ==> children[i].nodes !! children[j].nodes
      ensures Valid() && fresh(this)
      ensures View() == Tree(tag, attributes, text, tail,
                             seq(|children|, i requires 0 <= i < |children| => old(children[i].View())))
    {
      this.tag, this.attributes, this.text, this.tail, this.children := tag, attributes, text, tail, children;
      this.nodes := {this} + set i, e | 0 <= i < |children| && e in children[i].nodes :: e;
    }

    /** The element is the root of a tree: the subtrees of its children do not share an element. */
    ghost predicate Valid()
      decreases nodes
    {
      && this in nodes
      && (forall i :: 0 <= i < |children| ==> children[i].nodes < nodes && this !in children[i].nodes && children[i].Valid())
      && (forall i, j :: 0 <= i < j < |children| ==> children[i].nodes !! children[j].nodes)
    }

    /** Also what ET.tostring is compared by. */
    function View(): Tree
      requires Valid()
      reads nodes
      decreases nodes
    {
      Tree(tag, attributes, text, tail, seq(|children|, i requires 0 <= i < |children| reads nodes => children[i].View()))
    }

    /** rewrite. */
    method Rewrite(p: Product)
      requires Valid()
      modifies nodes
      ensures View() == Rewritten(p, old(View()))
      decreases nodes, 0
    {
      if IsSkipped(tag) { return; }
      ghost var before := View();
      text := SubText(p, text);
      hide SubText;
      for i := 0 to |children|
        invariant text == SubText(p, before.text) && tail == before.tail
        invariant forall j :: 0 <= j < i ==> children[j].View() == WithTail(p, before.children[j])
        invariant forall j :: i <= j < |children| ==> children[j].View() == before.children[j]
      {
        children[i].RewriteChild(p);
      }
      assert View().children == Rewritten(p, before).children;
    }

    /** The body of rewrite's loop, for this child. */
    method RewriteChild(p: Product)
      requires Valid()
      modifies nodes
      ensures View() == WithTail(p, old(View()))
      decreases nodes, 1
    {
      hide SubText;
      assert View().tail == tail;
      Rewrite(p);
      SetTail(SubText(p, tail));
    }

    /** child.tail = tail */
    method SetTail(tail: Option<string>)
      requires Valid()
      modifies this`tail
      ensures View() == old(View()).(tail := tail)
    {
      this.tail := tail;
      assert View().children == old(View()).children;
    }

    /** message.text = text */
    method SetText(text: Option<string>)
      requires Valid()
      modifies this`text
      ensures View() == old(View()).(text := text)
    {
      this.text := text;
      assert View().children == old(View()).children;
    }

    /** The body of transform's loop, for this element. */
    method Process(p: Product) returns (error: Option<Error>)
      requires Valid()
      modifies nodes
      ensures match Processed(p, old(View()))
              case Ok(t) => error == None && View() == t
              case Err(e) => error == Some(e) && View() == old(View())
    {
      hide Rewritten, Contains, Leading, Trailing, SubFirst, LeadsWithToken, TextOr;
      assert View().tag == tag && View().attributes == attributes && View().text == text;
      assert View().children == [] <==> children == [];
      hide Element.View, Element.Valid;
      if tag != Named("message") { return None; }
      var name := NameOf(attributes);
      if name in PROTECTED_IDS || Contains(name, "COPYRIGHT") { return None; }
      if name in {"IDS_PRODUCT_NAME", "IDS_SHORT_PRODUCT_NAME"} {
        if children != [] { return Some(UnexpectedChildren); }
        var value := if name == "IDS_PRODUCT_NAME" then p.fullName else p.shortName;
        SetText(Some(Leading(p.isSpace, TextOr(text)) + value + Trailing(p.isSpace, TextOr(text))));
      } else if name in LICENSE_IDS {
        if !LeadsWithToken(p, TextOr(text)) { return Some(NoLeadingToken); }
        SetText(Some(SubFirst(p.isWord, false, TextOr(text), p.fullName)));
      } else {
        Rewrite(p);
      }
      return None;
    }

    /** transform, from this element down. */
    method Transform(p: Product) returns (changed: seq<string>, error: Option<Error>)
      requires Valid()
      modifies nodes
      ensures match Transformed(p, old(View()))
              case Ok(done) => error == None && View() == done.tree && changed == done.changed
              case Err(e) => error == Some(e)
      decreases nodes, 1
    {
      hide TransformedAll, Processed;
      var before := View();
      changed := [];
      error := Process(p);
      if error.Some? { return; }
      if View() != before {
        changed := [NameOf(attributes)];
      }
      var names;
      names, error := TransformChildren(p);
      changed := changed + names;
    }

    /** The iteration below this element. */
    method TransformChildren(p: Product) returns (changed: seq<string>, error: Option<Error>)
      requires Valid()
      modifies nodes - {this}
      ensures match TransformedAll(p, old(View()).children)
              case Ok(all) => error == None && View() == old(View()).(children := all.trees) && changed == all.changed
              case Err(e) => error == Some(e)
      decreases nodes, 0
    {
      hide TransformedAll, Transformed;
      changed, error := [], None;
      ghost var t, done := View(), AllDone([], []);
      ResumeEnds(p, t.children, done);
      for i := 0 to |children|
        invariant error == None
        invariant |done.trees| == i && forall j :: 0 <= j < i ==> children[j].View() == done.trees[j]
        invariant forall j :: i <= j < |children| ==> children[j].View() == t.children[j]
        invariant TransformedAll(p, t.children) == Resumed(done, TransformedAll(p, t.children[i..]))
        invariant changed == done.changed
      {
        ResumeNext(p, t.children, i, done);
        var names;
        names, error := children[i].Transform(p);
        if error.Some? { return; }
        changed := changed + names;
        done := AllDone(done.trees + [children[i].View()], changed);
      }
      ResumeEnds(p, t.children, done);
      assert View().children == done.trees;
    }
  }

  /** What one turn of rewrite's loop makes of a child. */
  ghost function WithTail(p: Product, t: Tree): Tree {
    Rewritten(p, t).(tail := SubText(p, t.tail))
  }

  lemma ResumeEnds(p: Product, ts: seq<Tree>, done: AllDone)
    ensures Resumed(AllDone([], []), TransformedAll(p, ts[0..])) == TransformedAll(p, ts)
    ensures Resumed(done, TransformedAll(p, ts[|ts|..])) == Ok(done)
  {
    assert ts[0..] == ts && ts[|ts|..] == [];
    NoTrees(p);
    if TransformedAll(p, ts).Ok? {
      var all := TransformedAll(p, ts).value;
      assert [] + all.trees == all.trees && [] + all.changed == all.changed;
    }
    assert done.trees + [] == done.trees && done.changed + [] == done.changed;
  }

  lemma ResumeNext(p: Product, ts: seq<Tree>, i: nat, done: AllDone)
    requires i < |ts|
    ensures Resumed(done, TransformedAll(p, ts[i..]))
         == match Transformed(p, ts[i])
            case Err(e) => Err(e)
            case Ok(first) =>
              Resumed(AllDone(done.trees + [first.tree], done.changed + first.changed), TransformedAll(p, ts[i + 1..]))
  {
    assert ts[i..][0] == ts[i] && ts[i..][1..] == ts[i + 1..];
    hide Transformed;
    if Transformed(p, ts[i]).Ok? && TransformedAll(p, ts[i + 1..]).Ok? {
      var first, rest := Transformed(p, ts[i]).value, TransformedAll(p, ts[i + 1..]).value;
      assert done.trees + ([first.tree] + rest.trees) == done.trees + [first.tree] + rest.trees;
      assert done.changed + (first.changed + rest.changed) == done.changed + first.changed + rest.changed;
    }
  }

  /** The outcome for a list of which a first part is done. */
  ghost function Resumed(done: AllDone, rest: Result<AllDone, Error>): Result<AllDone, Error> {
    match rest
    case Ok(all) => Ok(AllDone(done.trees + all.trees, done.changed + all.changed))
    case Err(e) => Err(e)
  }
}
