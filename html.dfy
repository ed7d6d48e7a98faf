/** The parsed HTML the crawler edits, reduced to what it reads and writes: text,
    elements with their tag name, their `href` attribute (when present) and their
    children, and images with their `src` attribute (when present). A fragment
    (the children of the page's body wrapper) is a sequence of nodes in document
    order. Every `img` tag of the page is an `Img`; an `Element` never stands for
    one. */
module Html {
  import opened Wrappers

  datatype Node =
    | Text(text: string)
    | Element(name: string, href: Option<string>, children: seq<Node>)
    | Img(src: Option<string>)

  /** BeautifulSoup's `.string`: the text of a text node, or of an element whose only
      child has one; nothing for other elements and for images. */
  function StringOf(n: Node): Option<string> {
    match n
    case Text(s) => Some(s)
    case Element(_, _, children) => if |children| == 1 then StringOf(children[0]) else None
    case Img(_) => None
  }

  /** The visible text of a fragment in document order (BeautifulSoup's `get_text()`). */
  function TextContent(ns: seq<Node>): string {
    if ns == [] then "" else TextContent(ns[..|ns| - 1]) + NodeText(ns[|ns| - 1])
  }

  function NodeText(n: Node): string {
    match n
    case Text(s) => s
    case Element(_, _, children) => TextContent(children)
    case Img(_) => ""
  }

  /** The `href` of every `a` element of a fragment, in document order. */
  function Anchors(ns: seq<Node>): seq<Option<string>> {
    if ns == [] then [] else Anchors(ns[..|ns| - 1]) + NodeAnchors(ns[|ns| - 1])
  }

  function NodeAnchors(n: Node): seq<Option<string>> {
    match n
    case Element(name, href, children) => (if name == "a" then [href] else []) + Anchors(children)
    case _ => []
  }

  /** The text of two fragments side by side is the text of one, then of the other. */
  lemma {:induction false} TextContentConcat(a: seq<Node>, b: seq<Node>)
    ensures TextContent(a + b) == TextContent(a) + TextContent(b)
    decreases |b|
  {
    if b != [] {
      var b' := b[..|b| - 1];
      assert (a + b)[..|a + b| - 1] == a + b';
      assert (a + b)[|a + b| - 1] == b[|b| - 1];
      TextContentConcat(a, b');
    } else {
      assert a + b == a;
    }
  }

  /** The anchors of two fragments side by side are those of one, then of the other. */
  lemma {:induction false} AnchorsConcat(a: seq<Node>, b: seq<Node>)
    ensures Anchors(a + b) == Anchors(a) + Anchors(b)
    decreases |b|
  {
    if b != [] {
      var b' := b[..|b| - 1];
      assert (a + b)[..|a + b| - 1] == a + b';
      assert (a + b)[|a + b| - 1] == b[|b| - 1];
      AnchorsConcat(a, b');
    } else {
      assert a + b == a;
    }
  }

  /** The text of a fragment split at its first node. */
  lemma TextContentCons(n: Node, rest: seq<Node>)
    ensures TextContent([n] + rest) == NodeText(n) + TextContent(rest)
  {
    TextContentConcat([n], rest);
    assert [n][..0] == [];
  }

  /** The anchors of a fragment split at its first node. */
  lemma AnchorsCons(n: Node, rest: seq<Node>)
    ensures Anchors([n] + rest) == NodeAnchors(n) + Anchors(rest)
  {
    AnchorsConcat([n], rest);
    assert [n][..0] == [];
  }
}
