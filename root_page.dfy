/** The documentation's start page: the rewrite applied before it is saved as
    `index.html` (main.py:146-150), and the pass at the end of the run that unwraps,
    for every module whose index page was not found, the first link whose `href`
    mentions that module (main.py:302-303). */
module RootPage {
  import opened Wrappers
  import opened Strings
  import opened Html

  /** `.replace("/index.html", "-index.html")` */
  function LocalIndex(s: string): string {
    ReplaceAll(s, "/index.html", "-index.html")
  }

  /** An `href` of the start page after the two replacements on the serialised page:
      a leading "PySide2/" is dropped, then "/index.html" becomes "-index.html". */
  function RootHref(h: string): string {
    LocalIndex(if StartsWith(h, "PySide2/") then h[|"PySide2/"|..] else h)
  }

  /** The start page's body after the rewrite: the second replacement reaches the
      text and the image sources as well as the links. */
  function RewriteRoot(ns: seq<Node>): seq<Node> {
    if ns == [] then [] else RewriteRoot(ns[..|ns| - 1]) + [RewriteNode(ns[|ns| - 1])]
  }

  /** One node after the rewrite. A text node gets only the "/index.html"
      replacement: the first replacement looks for `href="PySide2/`, which in the
      serialised page can also stand inside visible text, and such text is not
      rewritten here. */
  function RewriteNode(n: Node): Node {
    match n
    case Text(s) => Text(LocalIndex(s))
    case Element(name, href, children) =>
      Element(name, if href.Some? then Some(RootHref(href.value)) else None, RewriteRoot(children))
    case Img(src) => Img(if src.Some? then Some(LocalIndex(src.value)) else None)
  }

  /** The rewrite keeps the shape of the page: as many nodes, each of the same kind
      and tag, with an `href` exactly where there was one. */
  lemma {:induction false} RewriteKeepsShape(ns: seq<Node>)
    ensures |RewriteRoot(ns)| == |ns|
    ensures forall k :: 0 <= k < |ns| ==> RewriteRoot(ns)[k] == RewriteNode(ns[k])
    decreases |ns|
  {
    if ns != [] {
      RewriteKeepsShape(ns[..|ns| - 1]);
      assert forall k :: 0 <= k < |ns| - 1 ==> ns[..|ns| - 1][k] == ns[k];
    }
  }

  // ---------------------------------------------------------------------------
  // The pass over the modules that were not found.

  /** `re.compile(slug)` searched in an `href`; the slug is read as plain text. */
  function MentionsSlug(slug: string): Option<string> -> bool {
    (h: Option<string>) => h.Some? && Contains(h.value, slug)
  }

  /** The position of the first element satisfying `p`, or the length when none does. */
  function FirstIndex<T>(xs: seq<T>, p: T -> bool): (k: nat)
    ensures k <= |xs| && (k < |xs| ==> p(xs[k]))
    ensures forall j :: 0 <= j < k ==> !p(xs[j])
    decreases |xs|
  {
    if xs == [] || p(xs[0]) then 0
    else
      var k := 1 + FirstIndex(xs[1..], p);
      assert forall j :: 1 <= j < |xs| ==> xs[j] == xs[1..][j - 1];
      k
  }

  /** A sequence with its first element satisfying `p` taken out, or nothing when
      none does. */
  function RemoveFirst<T>(xs: seq<T>, p: T -> bool): (r: Option<seq<T>>)
    ensures r.None? <==> forall k :: 0 <= k < |xs| ==> !p(xs[k])
  {
    var k := FirstIndex(xs, p);
    if k == |xs| then None else Some(xs[..k] + xs[k + 1..])
  }

  /** In two sequences side by side, the first match is in the first one if it has
      one, and otherwise the second one's, shifted. */
  lemma {:induction false} FirstIndexConcat<T>(x: seq<T>, y: seq<T>, p: T -> bool)
    ensures FirstIndex(x + y, p)
         == if FirstIndex(x, p) < |x| then FirstIndex(x, p) else |x| + FirstIndex(y, p)
    decreases |x|
  {
    if x == [] {
      assert x + y == y;
    } else {
      assert (x + y)[0] == x[0];
      assert (x + y)[1..] == x[1..] + y;
      FirstIndexConcat(x[1..], y, p);
    }
  }

  lemma RemoveFirstConcat<T>(x: seq<T>, y: seq<T>, p: T -> bool)
    ensures RemoveFirst(x + y, p)
         == if RemoveFirst(x, p).Some? then Some(RemoveFirst(x, p).value + y)
            else if RemoveFirst(y, p).Some? then Some(x + RemoveFirst(y, p).value)
            else None
  {
    FirstIndexConcat(x, y, p);
    var kx, ky := FirstIndex(x, p), FirstIndex(y, p);
    if kx < |x| {
      CutInFirst(x, y, kx);
    } else if ky < |y| {
      CutInSecond(x, y, ky);
    }
  }

  lemma CutInFirst<T>(x: seq<T>, y: seq<T>, k: nat)
    requires k < |x|
    ensures (x + y)[..k] + (x + y)[k + 1..] == (x[..k] + x[k + 1..]) + y
  {
    assert (x + y)[..k] == x[..k];
    assert (x + y)[k + 1..] == x[k + 1..] + y;
  }

  lemma CutInSecond<T>(x: seq<T>, y: seq<T>, k: nat)
    requires k < |y|
    ensures (x + y)[..|x| + k] + (x + y)[|x| + k + 1..] == x + (y[..k] + y[k + 1..])
  {
    assert (x + y)[..|x| + k] == x + y[..k];
    assert (x + y)[|x| + k + 1..] == y[k + 1..];
  }

  /** `find("a", href=...).replaceWithChildren()`: the first `a` in document order
      whose `href` passes the test is replaced by its children; when there is none,
      `find` gives `None` and the call raises, which ends the run. */
  function UnwrapFirst(ns: seq<Node>, matches: Option<string> -> bool): Option<seq<Node>>
    decreases ns
  {
    if ns == [] then None
    else
      var n, rest := ns[0], ns[1..];
      if n.Element? && n.name == "a" && matches(n.href) then Some(n.children + rest)
      else if n.Element? && UnwrapFirst(n.children, matches).Some? then
        Some([n.(children := UnwrapFirst(n.children, matches).value)] + rest)
      else
        match UnwrapFirst(rest, matches)
        case None => None
        case Some(r) => Some([n] + r)
  }

  /** The unwrapping of the first link that mentions `slug`. */
  function UnwrapFirstLink(ns: seq<Node>, slug: string): Option<seq<Node>> {
    UnwrapFirst(ns, MentionsSlug(slug))
  }

  /** The loop over the modules not found, in order. */
  function UnwrapAll(ns: seq<Node>, slugs: seq<string>): Option<seq<Node>> {
    if slugs == [] then Some(ns)
    else
      match UnwrapAll(ns, slugs[..|slugs| - 1])
      case None => None
      case Some(b) => UnwrapFirstLink(b, slugs[|slugs| - 1])
  }

  /** The anchors of a fragment that starts with a matching link. */
  lemma AnchorsAtMatchingLink(n: Node, rest: seq<Node>, matches: Option<string> -> bool)
    requires n.Element? && n.name == "a" && matches(n.href)
    ensures RemoveFirst(Anchors([n] + rest), matches) == Some(Anchors(n.children + rest))
  {
    AnchorsCons(n, rest);
    AnchorsConcat(n.children, rest);
    var hs := Anchors([n] + rest);
    assert hs == [n.href] + (Anchors(n.children) + Anchors(rest));
    assert FirstIndex(hs, matches) == 0;
    assert hs[..0] + hs[1..] == Anchors(n.children) + Anchors(rest);
  }

  /** The anchors of an element that is not itself a match: `a` or not, its own
      `href` comes before its children's. */
  lemma AnchorsOfOtherElement(n: Node, matches: Option<string> -> bool)
    requires n.Element? && !(n.name == "a" && matches(n.href))
    ensures var pre: seq<Option<string>> := if n.name == "a" then [n.href] else [];
      NodeAnchors(n) == pre + Anchors(n.children) && RemoveFirst(pre, matches).None?
  {
  }

  /** The anchors of a fragment whose first element holds the first match. */
  lemma AnchorsMatchInside(n: Node, c: seq<Node>, rest: seq<Node>, matches: Option<string> -> bool)
    requires n.Element? && !(n.name == "a" && matches(n.href))
    requires RemoveFirst(Anchors(n.children), matches) == Some(Anchors(c))
    ensures RemoveFirst(Anchors([n] + rest), matches) == Some(Anchors([n.(children := c)] + rest))
  {
    var pre: seq<Option<string>> := if n.name == "a" then [n.href] else [];
    AnchorsOfOtherElement(n, matches);
    AnchorsOfOtherElement(n.(children := c), matches);
    RemoveFirstConcat(pre, Anchors(n.children), matches);
    RemoveFirstConcat(NodeAnchors(n), Anchors(rest), matches);
    AnchorsCons(n, rest);
    AnchorsCons(n.(children := c), rest);
  }

  /** The anchors of a fragment whose first node holds no match. */
  lemma AnchorsMatchAfter(n: Node, rest: seq<Node>, matches: Option<string> -> bool)
    requires !(n.Element? && n.name == "a" && matches(n.href))
    requires n.Element? ==> RemoveFirst(Anchors(n.children), matches).None?
    ensures RemoveFirst(Anchors([n] + rest), matches)
         == if RemoveFirst(Anchors(rest), matches).None? then None
            else Some(NodeAnchors(n) + RemoveFirst(Anchors(rest), matches).value)
  {
    if n.Element? {
      AnchorsOfOtherElement(n, matches);
      RemoveFirstConcat(if n.name == "a" then [n.href] else [], Anchors(n.children), matches);
    }
    assert RemoveFirst(NodeAnchors(n), matches).None?;
    RemoveFirstConcat(NodeAnchors(n), Anchors(rest), matches);
    AnchorsCons(n, rest);
  }

  /** Exactly one link goes: the first `a` whose `href` passes the test; every other
      link stays, in its order. The call fails exactly when no `a` passes. */
  lemma {:induction false} UnwrapRemovesFirstMatch(ns: seq<Node>, matches: Option<string> -> bool)
    ensures UnwrapFirst(ns, matches).Some? == RemoveFirst(Anchors(ns), matches).Some?
    ensures UnwrapFirst(ns, matches).Some? ==>
      Anchors(UnwrapFirst(ns, matches).value) == RemoveFirst(Anchors(ns), matches).value
    decreases ns
  {
    if ns != [] {
      var n, rest := ns[0], ns[1..];
      assert ns == [n] + rest;
      if n.Element? && n.name == "a" && matches(n.href) {
        AnchorsAtMatchingLink(n, rest, matches);
      } else {
        if n.Element? {
          UnwrapRemovesFirstMatch(n.children, matches);
        }
        if n.Element? && UnwrapFirst(n.children, matches).Some? {
          AnchorsMatchInside(n, UnwrapFirst(n.children, matches).value, rest, matches);
        } else {
          UnwrapRemovesFirstMatch(rest, matches);
          AnchorsMatchAfter(n, rest, matches);
          if UnwrapFirst(rest, matches).Some? {
            AnchorsCons(n, UnwrapFirst(rest, matches).value);
          }
        }
      }
    }
  }

  /** Unwrapping a link keeps the visible text. */
  lemma {:induction false} UnwrapKeepsText(ns: seq<Node>, matches: Option<string> -> bool)
    requires UnwrapFirst(ns, matches).Some?
    ensures TextContent(UnwrapFirst(ns, matches).value) == TextContent(ns)
    decreases ns
  {
    var n, rest := ns[0], ns[1..];
    assert ns == [n] + rest;
    TextContentCons(n, rest);
    if n.Element? && n.name == "a" && matches(n.href) {
      TextContentConcat(n.children, rest);
    } else if n.Element? && UnwrapFirst(n.children, matches).Some? {
      UnwrapKeepsText(n.children, matches);
      TextContentCons(n.(children := UnwrapFirst(n.children, matches).value), rest);
    } else {
      UnwrapKeepsText(rest, matches);
      TextContentCons(n, UnwrapFirst(rest, matches).value);
    }
  }

  /** The whole pass takes out one link per slug and keeps the visible text. */
  lemma {:induction false} UnwrapAllShape(ns: seq<Node>, slugs: seq<string>)
    requires UnwrapAll(ns, slugs).Some?
    ensures |Anchors(UnwrapAll(ns, slugs).value)| == |Anchors(ns)| - |slugs|
    ensures TextContent(UnwrapAll(ns, slugs).value) == TextContent(ns)
    decreases |slugs|
  {
    if slugs != [] {
      var b := UnwrapAll(ns, slugs[..|slugs| - 1]).value;
      UnwrapAllShape(ns, slugs[..|slugs| - 1]);
      UnwrapRemovesFirstMatch(b, MentionsSlug(slugs[|slugs| - 1]));
      UnwrapKeepsText(b, MentionsSlug(slugs[|slugs| - 1]));
    }
  }
}
