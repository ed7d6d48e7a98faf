/** The inheritance list of a class page (main.py:202-209): the first `strong`
    element whose text is "Inherited by:" is looked up in document order, and every
    `a` element among its following siblings has its `href` cut at the first '#'.
    An `a` sibling without an `href` makes `link["href"]` raise, which ends the run. */
module Inheritance {
  import opened Wrappers
  import opened Strings
  import opened Html

  /** What `body.find("strong", text="Inherited by:")` looks for. */
  predicate IsMarker(n: Node) {
    n.Element? && n.name == "strong" && StringOf(n) == Some("Inherited by:")
  }

  /** An `a` element, as `find_next_siblings("a")` selects them. */
  predicate IsAnchor(n: Node) {
    n.Element? && n.name == "a"
  }

  /** One following sibling after the loop body: an `a` gets its `href` cut at '#'
      (or the run ends when it has none); any other node is left alone. */
  function StripSibling(n: Node): Option<Node> {
    if IsAnchor(n) then
      if n.href.None? then None else Some(n.(href := Some(FirstField(n.href.value, '#'))))
    else Some(n)
  }

  /** The loop over the following siblings, in order. */
  function StripSiblings(ns: seq<Node>): Option<seq<Node>> {
    if ns == [] then Some([])
    else
      match StripSiblings(ns[..|ns| - 1])
      case None => None
      case Some(p) =>
        match StripSibling(ns[|ns| - 1])
        case None => None
        case Some(x) => Some(p + [x])
  }

  /** The outcome of the step on a fragment: no marker found, the marker found and
      its sibling links rewritten, or a sibling link without an `href`. */
  datatype Outcome = NoMarker | Stripped(nodes: seq<Node>) | HrefMissing

  function Prepend(n: Node, o: Outcome): Outcome {
    match o
    case Stripped(r) => Stripped([n] + r)
    case _ => o
  }

  /** The step on a fragment: the pre-order search for the marker, then the loop over
      the siblings that follow it inside the same parent. */
  function StripInheritance(ns: seq<Node>): Outcome {
    if ns == [] then NoMarker
    else
      var n, rest := ns[0], ns[1..];
      if IsMarker(n) then
        match StripSiblings(rest)
        case None => HrefMissing
        case Some(r) => Stripped([n] + r)
      else if n.Element? then
        match StripInheritance(n.children)
        case Stripped(c) => Stripped([n.(children := c)] + rest)
        case HrefMissing => HrefMissing
        case NoMarker => Prepend(n, StripInheritance(rest))
      else Prepend(n, StripInheritance(rest))
  }

  /** The body after the step, or nothing when the run ends in it. */
  function StripAnchors(ns: seq<Node>): Option<seq<Node>> {
    match StripInheritance(ns)
    case NoMarker => Some(ns)
    case Stripped(r) => Some(r)
    case HrefMissing => None
  }

  // ---------------------------------------------------------------------------
  // The step as the source performs it.

  /** `for link in links: link["href"] = link["href"].split("#")[0]` */
  method StripSiblingLinks(siblings: seq<Node>) returns (r: Option<seq<Node>>)
    ensures r == StripSiblings(siblings)
  {
    var out: seq<Node> := [];
    var i := 0;
    while i < |siblings|
      invariant 0 <= i <= |siblings|
      invariant StripSiblings(siblings[..i]) == Some(out)
    {
      var n := siblings[i];
      assert siblings[..i + 1][..i] == siblings[..i];
      if n.Element? && n.name == "a" {
        if n.href.None? {
          StripSiblingsStops(siblings, i);
          return None;
        }
        n := n.(href := Some(FirstField(n.href.value, '#')));
      }
      out := out + [n];
      i := i + 1;
    }
    assert siblings[..i] == siblings;
    return Some(out);
  }

  /** `find` of the marker in document order, then the sibling loop. */
  method StripInheritanceLinks(body: seq<Node>) returns (r: Outcome)
    ensures r == StripInheritance(body)
    decreases body
  {
    if body == [] {
      return NoMarker;
    }
    var n, rest := body[0], body[1..];
    if n.Element? && n.name == "strong" && StringOf(n) == Some("Inherited by:") {
      var s := StripSiblingLinks(rest);
      if s.None? {
        return HrefMissing;
      }
      return Stripped([n] + s.value);
    }
    if n.Element? {
      var inner := StripInheritanceLinks(n.children);
      if inner.Stripped? {
        return Stripped([n.(children := inner.nodes)] + rest);
      } else if inner.HrefMissing? {
        return HrefMissing;
      }
    }
    var tail := StripInheritanceLinks(rest);
    r := Prepend(n, tail);
  }

  /** Once a sibling lacks its `href`, the loop has ended the run whatever follows. */
  lemma {:induction false} StripSiblingsStops(ns: seq<Node>, i: nat)
    requires i < |ns| && StripSibling(ns[i]).None?
    ensures StripSiblings(ns).None?
    decreases |ns|
  {
    if i < |ns| - 1 {
      assert ns[..|ns| - 1][i] == ns[i];
      StripSiblingsStops(ns[..|ns| - 1], i);
    }
  }

  // ---------------------------------------------------------------------------
  // What the loop does to each sibling.

  /** The loop rewrites the siblings one for one: each `a` keeps everything but its
      `href`, which is cut at the first '#'; the run ends exactly when some `a` has no
      `href`. */
  lemma {:induction false} StripSiblingsPointwise(ns: seq<Node>)
    ensures StripSiblings(ns).None? <==> exists k :: 0 <= k < |ns| && IsAnchor(ns[k]) && ns[k].href.None?
    ensures StripSiblings(ns).Some? ==>
      var r := StripSiblings(ns).value;
      |r| == |ns| && forall k :: 0 <= k < |ns| ==> Some(r[k]) == StripSibling(ns[k])
    decreases |ns|
  {
    if ns != [] {
      var init := ns[..|ns| - 1];
      StripSiblingsPointwise(init);
      assert forall k :: 0 <= k < |init| ==> init[k] == ns[k];
      if StripSiblings(ns).None? && StripSiblings(init).Some? {
        assert IsAnchor(ns[|ns| - 1]) && ns[|ns| - 1].href.None?;
      }
      if StripSiblings(ns).Some? {
        var r := StripSiblings(ns).value;
        assert r[..|init|] == StripSiblings(init).value;
      }
    }
  }

  /** A rewritten inheritance `href` is the part of the old one before its first '#':
      a prefix of it, free of '#', left alone by a second cut. */
  lemma StrippedHref(h: string)
    ensures var h' := FirstField(h, '#');
      StartsWith(h, h') && '#' !in h' && FirstField(h', '#') == h'
      && (h' != h ==> h[|h'|] == '#')
  {
    FirstFieldIsPrefixBeforeSeparator(h, '#');
    FirstFieldIdempotent(h, '#');
  }

  // ---------------------------------------------------------------------------
  // Nothing but hrefs changes, and each changed href is cut at '#'.

  /** `b` is `a` with some `href`s cut at their first '#'. */
  ghost predicate CutRelated(a: seq<Node>, b: seq<Node>)
    decreases a
  {
    |a| == |b| && forall k :: 0 <= k < |a| ==> NodeCutRelated(a[k], b[k])
  }

  ghost predicate NodeCutRelated(x: Node, y: Node)
    decreases x
  {
    if x.Element? then
      y.Element? && y.name == x.name && CutRelated(x.children, y.children)
      && (y.href == x.href || (x.href.Some? && y.href == Some(FirstField(x.href.value, '#'))))
    else y == x
  }

  lemma {:induction false} CutRelatedRefl(a: seq<Node>)
    ensures CutRelated(a, a)
    decreases a
  {
    forall k | 0 <= k < |a| ensures NodeCutRelated(a[k], a[k]) {
      if a[k].Element? {
        CutRelatedRefl(a[k].children);
      }
    }
  }

  lemma CutRelatedCons(x: Node, a: seq<Node>, y: Node, b: seq<Node>)
    requires NodeCutRelated(x, y) && CutRelated(a, b)
    ensures CutRelated([x] + a, [y] + b)
  {
    forall k | 0 <= k < |[x] + a| ensures NodeCutRelated(([x] + a)[k], ([y] + b)[k]) {
      if k > 0 {
        assert ([x] + a)[k] == a[k - 1] && ([y] + b)[k] == b[k - 1];
      }
    }
  }

  /** Cutting hrefs leaves `.string`, and so the marker test, as it was. */
  lemma {:induction false} CutKeepsString(x: Node, y: Node)
    requires NodeCutRelated(x, y)
    ensures StringOf(y) == StringOf(x) && (IsMarker(y) <==> IsMarker(x))
    decreases x
  {
    if x.Element? && |x.children| == 1 {
      CutKeepsString(x.children[0], y.children[0]);
    }
  }

  /** Cutting hrefs leaves the visible text as it was. */
  lemma {:induction false} CutKeepsText(a: seq<Node>, b: seq<Node>)
    requires CutRelated(a, b)
    ensures TextContent(b) == TextContent(a)
    decreases a
  {
    if a != [] {
      var ia, ib := a[..|a| - 1], b[..|b| - 1];
      assert CutRelated(ia, ib) by {
        forall k | 0 <= k < |ia| ensures NodeCutRelated(ia[k], ib[k]) {
          assert ia[k] == a[k] && ib[k] == b[k];
        }
      }
      CutKeepsText(ia, ib);
      var x, y := a[|a| - 1], b[|b| - 1];
      assert NodeCutRelated(x, y);
      if x.Element? {
        CutKeepsText(x.children, y.children);
      }
    }
  }

  lemma {:induction false} SiblingsCutRelated(ns: seq<Node>)
    requires StripSiblings(ns).Some?
    ensures CutRelated(ns, StripSiblings(ns).value)
  {
    StripSiblingsPointwise(ns);
    var r := StripSiblings(ns).value;
    forall k | 0 <= k < |ns| ensures NodeCutRelated(ns[k], r[k]) {
      assert Some(r[k]) == StripSibling(ns[k]);
      if ns[k].Element? {
        CutRelatedRefl(ns[k].children);
      }
    }
  }

  /** The step changes no node but by cutting `href`s at their first '#': tags,
      text, images and the shape of the tree stay as they were. */
  lemma {:induction false} StripInheritanceOnlyCuts(ns: seq<Node>)
    requires StripInheritance(ns).Stripped?
    ensures CutRelated(ns, StripInheritance(ns).nodes)
    decreases ns
  {
    var n, rest := ns[0], ns[1..];
    assert ns == [n] + rest;
    if IsMarker(n) {
      SiblingsCutRelated(rest);
      CutRelatedRefl([n]);
      CutRelatedCons(n, rest, n, StripSiblings(rest).value);
    } else if n.Element? && StripInheritance(n.children).Stripped? {
      StripInheritanceOnlyCuts(n.children);
      CutRelatedRefl(rest);
      CutRelatedCons(n, rest, n.(children := StripInheritance(n.children).nodes), rest);
    } else {
      StripInheritanceOnlyCuts(rest);
      CutRelatedRefl([n]);
      CutRelatedCons(n, rest, n, StripInheritance(rest).nodes);
    }
  }

  /** Reference definition: the node is the marker, or holds it at some depth. */
  predicate NodeHasMarker(n: Node)
    decreases n
  {
    IsMarker(n) || (n.Element? && exists k :: 0 <= k < |n.children| && NodeHasMarker(n.children[k]))
  }

  /** Some node of the fragment, at any depth, is the marker. */
  predicate HasMarker(ns: seq<Node>) {
    exists k :: 0 <= k < |ns| && NodeHasMarker(ns[k])
  }

  lemma HasMarkerCons(ns: seq<Node>)
    requires ns != []
    ensures HasMarker(ns) <==> NodeHasMarker(ns[0]) || HasMarker(ns[1..])
  {
    if HasMarker(ns) && !NodeHasMarker(ns[0]) {
      var k :| 0 <= k < |ns| && NodeHasMarker(ns[k]);
      assert ns[1..][k - 1] == ns[k];
    }
    if HasMarker(ns[1..]) {
      var k :| 0 <= k < |ns[1..]| && NodeHasMarker(ns[1..][k]);
      assert ns[k + 1] == ns[1..][k];
    }
  }

  /** The search finds nothing exactly when no node, at any depth, is the marker. */
  lemma {:induction false} NoMarkerIffAbsent(ns: seq<Node>)
    ensures StripInheritance(ns).NoMarker? <==> !HasMarker(ns)
    decreases ns
  {
    if ns != [] {
      var n, rest := ns[0], ns[1..];
      HasMarkerCons(ns);
      NoMarkerIffAbsent(rest);
      if !IsMarker(n) && n.Element? {
        NoMarkerIffAbsent(n.children);
        assert NodeHasMarker(n) <==> HasMarker(n.children);
      }
    }
  }

  /** A body without the marker is left as it is. */
  lemma NoMarkerLeavesBody(ns: seq<Node>)
    requires !HasMarker(ns)
    ensures StripAnchors(ns) == Some(ns)
  {
    NoMarkerIffAbsent(ns);
  }

  // ---------------------------------------------------------------------------
  // A second pass changes nothing.

  lemma {:induction false} StripSiblingsIdempotent(ns: seq<Node>)
    requires StripSiblings(ns).Some?
    ensures StripSiblings(StripSiblings(ns).value) == StripSiblings(ns)
  {
    var r := StripSiblings(ns).value;
    StripSiblingsPointwise(ns);
    StripSiblingsPointwise(r);
    forall k | 0 <= k < |r| ensures StripSibling(r[k]) == Some(r[k]) {
      assert Some(r[k]) == StripSibling(ns[k]);
      if IsAnchor(ns[k]) {
        FirstFieldIdempotent(ns[k].href.value, '#');
      }
    }
    assert StripSiblings(r).Some?;
    var r2 := StripSiblings(r).value;
    assert forall k :: 0 <= k < |r| ==> Some(r2[k]) == Some(r[k]);
    assert r2 == r;
  }

  lemma {:induction false} NoMarkerUnchanged(n: Node, c: seq<Node>)
    requires n.Element? && !IsMarker(n) && CutRelated(n.children, c)
    ensures !IsMarker(n.(children := c))
  {
    CutRelatedRefl([n]);
    var n' := n.(children := c);
    assert NodeCutRelated(n, n');
    CutKeepsString(n, n');
  }

  /** Stripping the inheritance links of a stripped body gives it back. */
  lemma {:induction false} StripInheritanceIdempotent(ns: seq<Node>)
    requires StripInheritance(ns).Stripped?
    ensures StripInheritance(StripInheritance(ns).nodes) == StripInheritance(ns)
    decreases ns
  {
    var n, rest := ns[0], ns[1..];
    var r := StripInheritance(ns).nodes;
    assert r[0] == n || n.Element?;
    if IsMarker(n) {
      var s := StripSiblings(rest).value;
      StripSiblingsIdempotent(rest);
      assert r == [n] + s;
      assert r[1..] == s;
    } else if n.Element? && StripInheritance(n.children).Stripped? {
      var c := StripInheritance(n.children).nodes;
      StripInheritanceIdempotent(n.children);
      StripInheritanceOnlyCuts(n.children);
      NoMarkerUnchanged(n, c);
      assert r == [n.(children := c)] + rest;
      assert r[1..] == rest;
    } else {
      var t := StripInheritance(rest).nodes;
      StripInheritanceIdempotent(rest);
      assert r == [n] + t;
      assert r[1..] == t;
    }
  }
}
