/**
 * IdTreeProcessor from mdx_elementid.py: a pass over an ElementTree that moves a
 * trailing {#name} or {.name} spec from an element's text into its id or class
 * attribute. Elements are objects whose attributes and text the pass updates in
 * place; Tree() reads the value of the tree below an element, and Parsed says
 * what the pass makes of such a value.
 */
module ElementId {
  import opened JsValues
  import opened IdPattern

  /** The value of an element and everything below it. */
  datatype Node = Node(tag: string, attrib: map<string, string>, text: Option<string>, kids: seq<Node>)

  /** An ElementTree element: a tag, an attribute dictionary, an optional text, and its children in order. */
  class Element {
    const tag: string
    var attrib: map<string, string>
    var text: Option<string>
    var children: seq<Element>
    ghost var Repr: set<object>

    /** The element and the trees below it are a tree: no child is shared and none contains its parent. */
    ghost predicate Valid()
      reads this, Repr
      decreases Repr
    {
      && this in Repr
      && (forall i :: 0 <= i < |children| ==>
            children[i] in Repr && children[i].Repr <= Repr && this !in children[i].Repr && children[i].Valid())
      && (forall i, j :: 0 <= i < j < |children| ==> children[i].Repr !! children[j].Repr)
    }

    /** The value of the tree below this element. */
    ghost function Tree(): Node
      reads this, Repr
      requires Valid()
      decreases Repr
    {
      Node(tag, attrib, text,
        seq(|children|, i reads this, Repr requires 0 <= i < |children| && Valid() => children[i].Tree()))
    }

    /** etree.Element(tag, attrib) with a text and no children. */
    constructor (tag: string, attrib: map<string, string>, text: Option<string>)
      ensures Valid() && fresh(Repr)
      ensures Tree() == Node(tag, attrib, text, [])
    {
      this.tag := tag;
      this.attrib := attrib;
      this.text := text;
      children := [];
      Repr := {this};
    }
  }

  /** The elements the pass looks at: block-level, and neither code nor pre. */
  predicate Inspected(tag: string, isBlockLevel: string -> bool) {
    isBlockLevel(tag) && tag != "code" && tag != "pre"
  }

  /** The attribute a spec of this kind sets: '#' sets id, '.' sets class. */
  function Key(kind: char): (k: string)
    ensures k == "id" <==> kind == '#'
    ensures k == "id" || k == "class"
  {
    if kind == '#' then "id" else "class"
  }

  /** What the pass does to one inspected element's own attributes and text. */
  function Labelled(attrib: map<string, string>, text: Option<string>): (map<string, string>, Option<string>) {
    if text.Some? && !Blank(text.value) then
      match Search(text.value)
      case Some(f) => (attrib[Key(f.spec.kind) := f.spec.name], Some(text.value[..f.start]))
      case None => (attrib, text)
    else (attrib, text)
  }

  /** The tree _parseID leaves behind. */
  function Parsed(n: Node, isBlockLevel: string -> bool): Node
    decreases n
  {
    if !Inspected(n.tag, isBlockLevel) then n
    else
      var labels := Labelled(n.attrib, n.text);
      Node(n.tag, labels.0, labels.1,
        seq(|n.kids|, i requires 0 <= i < |n.kids| => Parsed(n.kids[i], isBlockLevel)))
  }

  /** _parseID: rewrites element and everything below it in place, and returns element itself. */
  method ParseId(element: Element, isBlockLevel: string -> bool) returns (r: Element)
    requires element.Valid()
    modifies element.Repr
    ensures r == element
    ensures element.Valid() && element.Repr == old(element.Repr)
    ensures element.Tree() == Parsed(old(element.Tree()), isBlockLevel)
    decreases element.Repr, 1
  {
    r := element;
    ghost var before := element.Tree();
    if isBlockLevel(element.tag) && element.tag != "code" && element.tag != "pre" {
      var attrib, text := Relabel(element.attrib, element.text);
      Label(element, attrib, text);
      var i := 0;
      while i < |element.children|
        invariant 0 <= i <= |element.children|
        invariant element.children == old(element.children) && element.Repr == old(element.Repr)
        invariant (element.attrib, element.text) == Labelled(before.attrib, before.text)
        invariant element.Valid()
        invariant forall j :: 0 <= j < |element.children| ==> element.children[j].Repr == old(element.children[j].Repr)
        invariant forall j :: 0 <= j < i ==> element.children[j].Tree() == Parsed(before.kids[j], isBlockLevel)
        invariant forall j :: i <= j < |element.children| ==> element.children[j].Tree() == before.kids[j]
      {
        Visit(element, i, isBlockLevel);
        i := i + 1;
      }
      assert element.Tree().kids == Parsed(before, isBlockLevel).kids;
    }
  }

  /** Lines 88-95 on values: a spec at the end of a non-blank text moves into the id or class attribute. */
  method Relabel(attrib0: map<string, string>, text0: Option<string>) returns (attrib: map<string, string>, text: Option<string>)
    ensures (attrib, text) == Labelled(attrib0, text0)
  {
    attrib, text := attrib0, text0;
    if text.Some? && !Blank(text.value) {
      var m := Search(text.value);
      if m.Some? {
        if m.value.spec.kind == '#' {
          attrib := attrib["id" := m.value.spec.name];
        } else {
          attrib := attrib["class" := m.value.spec.name];
        }
        text := Some(text.value[..m.value.start]);
      }
    }
  }

  /** element.set and the assignment to element.text: only the element's own attributes and text change. */
  method Label(element: Element, attrib: map<string, string>, text: Option<string>)
    requires element.Valid()
    modifies element
    ensures element.Valid() && element.children == old(element.children) && element.Repr == old(element.Repr)
    ensures element.attrib == attrib && element.text == text
    ensures element.Tree().kids == old(element.Tree().kids)
  {
    element.attrib, element.text := attrib, text;
  }

  /** One turn of the loop over the children: the pass through child i, which leaves its siblings as they were. */
  method Visit(element: Element, i: nat, isBlockLevel: string -> bool)
    requires element.Valid() && i < |element.children|
    modifies element.children[i].Repr
    ensures element.Valid()
    ensures forall j :: 0 <= j < |element.children| ==> element.children[j].Repr == old(element.children[j].Repr)
    ensures element.children[i].Tree() == Parsed(old(element.children[i].Tree()), isBlockLevel)
    ensures forall j :: 0 <= j < |element.children| && j != i ==> element.children[j].Tree() == old(element.children[j].Tree())
    decreases element.Repr, 0
  {
    var child := element.children[i];
    var _ := ParseId(child, isBlockLevel);
  }

  /** run: the pass from the root, which it returns; the style element it builds is never inserted. */
  method Run(root: Element, isBlockLevel: string -> bool) returns (r: Element)
    requires root.Valid()
    modifies root.Repr
    ensures r == root
    ensures root.Valid() && root.Repr == old(root.Repr)
    ensures root.Tree() == Parsed(old(root.Tree()), isBlockLevel)
  {
    if isBlockLevel(root.tag) && root.tag != "code" && root.tag != "pre" {
      var _ := ParseId(root, isBlockLevel);
    }
    r := root;
  }

  /** The attributes other than id and class. */
  function Others(attrib: map<string, string>): map<string, string> {
    attrib - {"id", "class"}
  }

  /** m is n with, at most, id and class set and each text cut to a prefix. */
  ghost predicate Trimmed(m: Node, n: Node)
    decreases n
  {
    && m.tag == n.tag
    && Others(m.attrib) == Others(n.attrib)
    && n.attrib.Keys <= m.attrib.Keys
    && (if n.text.None? then m.text.None? else m.text.Some? && m.text.value <= n.text.value)
    && |m.kids| == |n.kids|
    && forall i :: 0 <= i < |n.kids| ==> Trimmed(m.kids[i], n.kids[i])
  }

  /** Every tree is a trimming of itself. */
  lemma {:induction false} TrimmedSelf(n: Node)
    ensures Trimmed(n, n)
    decreases n
  {
    forall i | 0 <= i < |n.kids|
      ensures Trimmed(n.kids[i], n.kids[i])
    {
      TrimmedSelf(n.kids[i]);
    }
  }

  /** One element: a spec only sets id or class and cuts the text to a prefix. */
  lemma LabelledTrims(attrib: map<string, string>, text: Option<string>)
    ensures var labels := Labelled(attrib, text);
      && Others(labels.0) == Others(attrib)
      && attrib.Keys <= labels.0.Keys
      && (if text.None? then labels.1.None? else labels.1.Some? && labels.1.value <= text.value)
  {
  }

  /**
   * The pass keeps the shape of the tree: tags, the number and order of children,
   * every attribute except id and class are as before, and texts only get shorter.
   */
  lemma {:induction false} ParsedTrims(n: Node, isBlockLevel: string -> bool)
    ensures Trimmed(Parsed(n, isBlockLevel), n)
    decreases n
  {
    if !Inspected(n.tag, isBlockLevel) {
      TrimmedSelf(n);
    } else {
      LabelledTrims(n.attrib, n.text);
      var m := Parsed(n, isBlockLevel);
      forall i | 0 <= i < |n.kids|
        ensures Trimmed(m.kids[i], n.kids[i])
      {
        ParsedTrims(n.kids[i], isBlockLevel);
      }
    }
  }

  /** Code, pre and inline elements are left alone, and so is everything below them. */
  lemma ParsedSkips(n: Node, isBlockLevel: string -> bool)
    requires !isBlockLevel(n.tag) || n.tag == "code" || n.tag == "pre"
    ensures Parsed(n, isBlockLevel) == n
  {
  }

  /**
   * A text whose leftmost spec starts at s: the spec's name goes into id for '#'
   * and class for '.', replacing any value there, and the text keeps what precedes s.
   */
  lemma LabelledFound(attrib: map<string, string>, t: string, s: nat, spec: IdSpec)
    requires s <= |t| && Matches(t, s, spec) && NoneBefore(t, s)
    ensures Labelled(attrib, Some(t)) == (attrib[Key(spec.kind) := spec.name], Some(t[..s]))
  {
    SearchLeftmost(t, s, spec);
    MatchNotBlank(t);
  }

  /** No text, or a text with no spec anywhere: the element keeps its attributes and text. */
  lemma LabelledUnmatched(attrib: map<string, string>, text: Option<string>)
    requires text.Some? ==> NoneBefore(text.value, |text.value| + 1)
    ensures Labelled(attrib, text) == (attrib, text)
  {
    if text.Some? {
      SearchLeftmost(text.value, 0, IdSpec('#', []));
    }
  }

  /** Running the pass a second time changes nothing more on any tree whose texts keep no further spec. */
  lemma LabelledAgain(attrib: map<string, string>, text: Option<string>)
    requires var labels := Labelled(attrib, text); labels.1.Some? ==> Search(labels.1.value).None?
    ensures var labels := Labelled(attrib, text); Labelled(labels.0, labels.1) == labels
  {
  }

  /** The block-level tags of the documents below. */
  predicate DocBlock(tag: string) {
    tag == "div" || tag == "p" || tag == "ol" || tag == "li" || tag == "h1"
  }

  /**
   * A childless inspected element whose text s + r has its leftmost spec at |s|:
   * the step the examples below share.
   */
  lemma LeafFound(n: Node, isBlockLevel: string -> bool, s: string, r: string, f: Found, m: Node)
    requires Inspected(n.tag, isBlockLevel) && n.text == Some(s + r) && n.kids == []
    requires Search(s + r) == Some(f) && f.start == |s|
    requires m == Node(n.tag, n.attrib[Key(f.spec.kind) := f.spec.name], Some(s), [])
    ensures Parsed(n, isBlockLevel) == m
  {
    MatchNotBlank(s + r);
    assert (s + r)[..|s|] == s;
  }

  /** The first list item of the module's example gets id node1. */
  lemma ExampleItemNode1()
    ensures Parsed(Node("li", map[], Some("This is a test" + " {#node1}"), []), DocBlock)
      == Node("li", map["id" := "node1"], Some("This is a test"), [])
  {
    ExampleNode1();
    LeafFound(Node("li", map[], Some("This is a test" + " {#node1}"), []), DocBlock,
      "This is a test", " {#node1}", Found(14, IdSpec('#', "node1")),
      Node("li", map["id" := "node1"], Some("This is a test"), []));
  }

  /** The second list item gets class "node2 node3". */
  lemma ExampleItemNode2()
    ensures Parsed(Node("li", map[], Some("Other" + " {.node2 node3}"), []), DocBlock)
      == Node("li", map["class" := "node2 node3"], Some("Other"), [])
  {
    ExampleNode2();
    LeafFound(Node("li", map[], Some("Other" + " {.node2 node3}"), []), DocBlock,
      "Other", " {.node2 node3}", Found(5, IdSpec('.', "node2 node3")),
      Node("li", map["class" := "node2 node3"], Some("Other"), []));
  }

  /** The heading gets id downloading, and its closing hashes leave the text with the spec. */
  lemma ExampleHeading()
    ensures Parsed(Node("h1", map[], Some("Download!" + " # [#downloading]"), []), DocBlock)
      == Node("h1", map["id" := "downloading"], Some("Download!"), [])
  {
    ExampleDownloading();
    LeafFound(Node("h1", map[], Some("Download!" + " # [#downloading]"), []), DocBlock,
      "Download!", " # [#downloading]", Found(9, IdSpec('#', "downloading")),
      Node("h1", map["id" := "downloading"], Some("Download!"), []));
  }

  /** The paragraph gets id list.1: a blank after the spec does not stop the match. */
  lemma ExampleParagraph()
    ensures Parsed(Node("p", map[], Some("list:" + " {#list.1} "), []), DocBlock)
      == Node("p", map["id" := "list.1"], Some("list:"), [])
  {
    ExampleList1();
    LeafFound(Node("p", map[], Some("list:" + " {#list.1} "), []), DocBlock,
      "list:", " {#list.1} ", Found(5, IdSpec('#', "list.1")),
      Node("p", map["id" := "list.1"], Some("list:"), []));
  }

  /** A code element keeps its spec-like text. */
  lemma ExampleCode()
    ensures Parsed(Node("code", map[], Some("x {#y}"), []), DocBlock)
      == Node("code", map[], Some("x {#y}"), [])
  {
  }

  /** An inspected element without text over two children the pass turns into ma and mb. */
  lemma ParentOfTwo(tag: string, attrib: map<string, string>, a: Node, b: Node, ma: Node, mb: Node, isBlockLevel: string -> bool)
    requires Inspected(tag, isBlockLevel) && Parsed(a, isBlockLevel) == ma && Parsed(b, isBlockLevel) == mb
    ensures Parsed(Node(tag, attrib, None, [a, b]), isBlockLevel) == Node(tag, attrib, None, [ma, mb])
  {
    assert Parsed(Node(tag, attrib, None, [a, b]), isBlockLevel).kids == [ma, mb];
  }

  /** An ordered list: the list element has no text of its own, and both items are labelled. */
  lemma ExampleList()
    ensures Parsed(Node("ol", map[], None, [
        Node("li", map[], Some("This is a test" + " {#node1}"), []),
        Node("li", map[], Some("Other" + " {.node2 node3}"), [])]), DocBlock)
      == Node("ol", map[], None, [
        Node("li", map["id" := "node1"], Some("This is a test"), []),
        Node("li", map["class" := "node2 node3"], Some("Other"), [])])
  {
    ExampleItemNode1();
    ExampleItemNode2();
    ParentOfTwo("ol", map[],
      Node("li", map[], Some("This is a test" + " {#node1}"), []),
      Node("li", map[], Some("Other" + " {.node2 node3}"), []),
      Node("li", map["id" := "node1"], Some("This is a test"), []),
      Node("li", map["class" := "node2 node3"], Some("Other"), []), DocBlock);
  }

  /** A whitespace-only text is skipped before any search, and it stays as it is. */
  lemma ExampleBlank()
    ensures Parsed(Node("p", map["class" := "x"], Some(" \n"), []), DocBlock)
      == Node("p", map["class" := "x"], Some(" \n"), [])
  {
    assert Blank(" \n");
  }
}
