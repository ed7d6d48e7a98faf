/** `clean_links(body, current_url)` (main.py:57-66): every `a` or `area` element
    whose `href` matches the regular expression `^../` is either kept with its
    `href` flattened to the last path segment, when the link resolved against the
    page's URL lands inside the PySide2 documentation, or replaced by its children
    otherwise. */
module LinkRewriter {
  import opened Wrappers
  import opened Strings
  import opened Paths
  import opened Html

  /** `re.compile("^../")` searched in an href. In a Python regular expression `.`
      matches any character but a newline, so the test is: two such characters, then '/'. */
  predicate MatchesParentPattern(h: string) {
    |h| >= 3 && h[0] != '\n' && h[1] != '\n' && h[2] == '/'
  }

  /** The elements `body.find_all(["a", "area"], href=re.compile("^../"))` returns. */
  predicate Selected(n: Node) {
    n.Element? && (n.name == "a" || n.name == "area") && n.href.Some? && MatchesParentPattern(n.href.value)
  }

  /** `os.path.abspath("%s/%s" % (os.path.dirname(current_url), href))` */
  function Resolve(cwd: string, url: string, href: string): string {
    AbsPath(cwd, Dirname(url) + "/" + href)
  }

  /** Whether a selected link stays: its resolved path mentions "PySide2". */
  predicate InScope(cwd: string, url: string, href: string) {
    Contains(Resolve(cwd, url, href), "PySide2")
  }

  /** The scope test of a page fetched from `url`. */
  function ScopeOf(url: string, cwd: string): string -> bool {
    h => InScope(cwd, url, h)
  }

  /** The fragment after `clean_links`, for the scope test `keep` of its page. Each
      selected element is decided on its own `href`, so the loop over the selected
      elements amounts to rewriting every node of the tree independently. */
  function CleanFragment(ns: seq<Node>, keep: string -> bool): seq<Node> {
    if ns == [] then [] else CleanFragment(ns[..|ns| - 1], keep) + CleanNode(ns[|ns| - 1], keep)
  }

  /** What one node becomes: a flattened link, the cleaned children of an unwrapped
      link, or the node itself with cleaned children. */
  function CleanNode(n: Node, keep: string -> bool): seq<Node> {
    match n
    case Element(name, href, children) =>
      var kids := CleanFragment(children, keep);
      if Selected(n) then
        if keep(href.value) then [Element(name, Some(LastField(href.value, '/')), kids)]
        else kids
      else [Element(name, href, kids)]
    case _ => [n]
  }

  /** `clean_links`, visiting the nodes in document order: a selected link in scope
      gets `tag["href"] = tag["href"].split("/")[-1]`, one out of scope
      `tag.replaceWithChildren()`. */
  method CleanLinks(body: seq<Node>, url: string, cwd: string) returns (out: seq<Node>)
    ensures out == CleanFragment(body, ScopeOf(url, cwd))
  {
    out := [];
    var i := 0;
    while i < |body|
      invariant 0 <= i <= |body|
      invariant out == CleanFragment(body[..i], ScopeOf(url, cwd))
    {
      var n := body[i];
      var piece: seq<Node>;
      match n {
        case Element(name, href, children) =>
          var kids := CleanLinks(children, url, cwd);
          if (name == "a" || name == "area") && href.Some? && MatchesParentPattern(href.value) {
            if InScope(cwd, url, href.value) {
              piece := [Element(name, Some(LastField(href.value, '/')), kids)];
            } else {
              piece := kids;
            }
          } else {
            piece := [n.(children := kids)];
          }
        case _ =>
          piece := [n];
      }
      assert body[..i + 1][..i] == body[..i];
      out := out + piece;
      i := i + 1;
    }
    assert body[..i] == body;
  }

  // ---------------------------------------------------------------------------
  // Position: every node is rewritten where it stands.

  lemma {:induction false} CleanFragmentConcat(a: seq<Node>, b: seq<Node>, keep: string -> bool)
    ensures CleanFragment(a + b, keep) == CleanFragment(a, keep) + CleanFragment(b, keep)
    decreases |b|
  {
    if b == [] {
      assert a + b == a;
    } else {
      var b', x := b[..|b| - 1], b[|b| - 1];
      assert (a + b)[..|a + b| - 1] == a + b';
      assert (a + b)[|a + b| - 1] == x;
      CleanFragmentConcat(a, b', keep);
      var ca, cb', cx := CleanFragment(a, keep), CleanFragment(b', keep), CleanNode(x, keep);
      assert CleanFragment(b, keep) == cb' + cx;
      calc {
        CleanFragment(a + b, keep);
        CleanFragment(a + b', keep) + cx;
        ca + cb' + cx;
        ca + (cb' + cx);
      }
    }
  }

  lemma CleanFragmentAround(pre: seq<Node>, n: Node, post: seq<Node>, keep: string -> bool)
    ensures CleanFragment(pre + [n] + post, keep)
         == CleanFragment(pre, keep) + CleanNode(n, keep) + CleanFragment(post, keep)
  {
    CleanFragmentConcat(pre + [n], post, keep);
    CleanFragmentConcat(pre, [n], keep);
    assert [n][..0] == [];
  }

  /** A selected link in scope stays where it is, with the same tag and cleaned
      children; its new href is the last '/'-segment of the old one, a suffix of it
      containing no '/'. */
  lemma InScopeLinkIsFlattened(pre: seq<Node>, n: Node, post: seq<Node>, keep: string -> bool)
    requires Selected(n) && keep(n.href.value)
    ensures var h := n.href.value; var h' := LastField(h, '/');
      CleanFragment(pre + [n] + post, keep)
        == CleanFragment(pre, keep) + [Element(n.name, Some(h'), CleanFragment(n.children, keep))]
           + CleanFragment(post, keep)
      && '/' !in h' && EndsWith(h, h')
  {
    CleanFragmentAround(pre, n, post, keep);
    LastFieldIsSuffixAfterSeparator(n.href.value, '/');
  }

  /** A selected link out of scope disappears, and its cleaned children take its
      place, in their order, between what came before and after it. */
  lemma OutOfScopeLinkIsUnwrapped(pre: seq<Node>, n: Node, post: seq<Node>, keep: string -> bool)
    requires Selected(n) && !keep(n.href.value)
    ensures CleanFragment(pre + [n] + post, keep)
         == CleanFragment(pre, keep) + CleanFragment(n.children, keep) + CleanFragment(post, keep)
  {
    CleanFragmentAround(pre, n, post, keep);
  }

  /** Every other node stays where it is, unchanged but for its cleaned children. */
  lemma UnselectedNodeStays(pre: seq<Node>, n: Node, post: seq<Node>, keep: string -> bool)
    requires !Selected(n)
    ensures CleanFragment(pre + [n] + post, keep)
         == CleanFragment(pre, keep)
            + [if n.Element? then n.(children := CleanFragment(n.children, keep)) else n]
            + CleanFragment(post, keep)
  {
    CleanFragmentAround(pre, n, post, keep);
  }

  // ---------------------------------------------------------------------------
  // What the rewrite preserves and establishes.

  /** Unwrapping keeps the text: the visible text of the page does not change. */
  lemma {:induction false} CleanKeepsText(ns: seq<Node>, keep: string -> bool)
    ensures TextContent(CleanFragment(ns, keep)) == TextContent(ns)
    decreases ns
  {
    if ns != [] {
      var init, last := ns[..|ns| - 1], ns[|ns| - 1];
      CleanKeepsText(init, keep);
      CleanNodeKeepsText(last, keep);
      TextContentConcat(CleanFragment(init, keep), CleanNode(last, keep));
    }
  }

  lemma {:induction false} CleanNodeKeepsText(n: Node, keep: string -> bool)
    ensures TextContent(CleanNode(n, keep)) == NodeText(n)
    decreases n
  {
    match n {
      case Element(name, href, children) =>
        CleanKeepsText(children, keep);
        var kids := CleanFragment(children, keep);
        if !Selected(n) || keep(href.value) {
          var e := CleanNode(n, keep)[0];
          assert CleanNode(n, keep) == [e];
          assert [e][..0] == [];
        }
      case Text(_) =>
        assert [n][..0] == [];
      case Img(_) =>
        assert [n][..0] == [];
    }
  }

  /** A fragment in which no element is selected. */
  ghost predicate NoneSelected(ns: seq<Node>) {
    forall k :: 0 <= k < |ns| ==> NodeNoneSelected(ns[k])
  }

  ghost predicate NodeNoneSelected(n: Node) {
    !Selected(n) && (n.Element? ==> NoneSelected(n.children))
  }

  lemma NoneSelectedConcat(a: seq<Node>, b: seq<Node>)
    ensures NoneSelected(a + b) <==> NoneSelected(a) && NoneSelected(b)
  {
    if NoneSelected(a) && NoneSelected(b) {
      forall k | 0 <= k < |a + b| ensures NodeNoneSelected((a + b)[k]) {
        if k >= |a| { assert (a + b)[k] == b[k - |a|]; }
      }
    }
    if NoneSelected(a + b) {
      forall k | 0 <= k < |a| ensures NodeNoneSelected(a[k]) {
        assert (a + b)[k] == a[k];
      }
      forall k | 0 <= k < |b| ensures NodeNoneSelected(b[k]) {
        assert (a + b)[|a| + k] == b[k];
      }
    }
  }

  /** After `clean_links` no link is left that it would select again: flattened hrefs
      contain no '/', and the pattern needs one at the third character. */
  lemma {:induction false} CleanLeavesNoneSelected(ns: seq<Node>, keep: string -> bool)
    ensures NoneSelected(CleanFragment(ns, keep))
    decreases ns
  {
    if ns != [] {
      var init, last := ns[..|ns| - 1], ns[|ns| - 1];
      CleanLeavesNoneSelected(init, keep);
      CleanNodeLeavesNoneSelected(last, keep);
      NoneSelectedConcat(CleanFragment(init, keep), CleanNode(last, keep));
    }
  }

  lemma {:induction false} CleanNodeLeavesNoneSelected(n: Node, keep: string -> bool)
    ensures NoneSelected(CleanNode(n, keep))
    decreases n
  {
    if n.Element? {
      CleanLeavesNoneSelected(n.children, keep);
      if Selected(n) && keep(n.href.value) {
        var h' := LastField(n.href.value, '/');
        assert '/' !in Split(n.href.value, '/')[|Split(n.href.value, '/')| - 1];
        assert !MatchesParentPattern(h') by {
          if |h'| >= 3 { assert h'[2] in h'; }
        }
      }
    }
  }

  /** A fragment with nothing selected is left as it is. */
  lemma {:induction false} CleanFixesNoneSelected(ns: seq<Node>, keep: string -> bool)
    requires NoneSelected(ns)
    ensures CleanFragment(ns, keep) == ns
    decreases ns
  {
    if ns != [] {
      var init, last := ns[..|ns| - 1], ns[|ns| - 1];
      NoneSelectedConcat(init, [last]);
      assert ns == init + [last];
      CleanFixesNoneSelected(init, keep);
      if last.Element? {
        CleanFixesNoneSelected(last.children, keep);
      }
    }
  }

  /** Cleaning a second time changes nothing. */
  lemma CleanIdempotent(ns: seq<Node>, keep: string -> bool)
    ensures CleanFragment(CleanFragment(ns, keep), keep) == CleanFragment(ns, keep)
  {
    CleanLeavesNoneSelected(ns, keep);
    CleanFixesNoneSelected(CleanFragment(ns, keep), keep);
  }
}
