/** Image localisation on a class page (main.py:214-229): every image's `src` has
    each "../../" removed, the file is downloaded from the documentation site under
    that path and saved under its basename; the image then points at the local copy,
    or is removed when the download fails. An image without a `src` makes
    `image["src"]` raise, which ends the run. The download is an oracle `ok` that
    answers, for each URL, whether it succeeded. */
module Images {
  import opened Wrappers
  import opened Strings
  import opened Paths
  import opened Html

  const SiteRoot: string := "https://doc-snapshots.qt.io/qtforpython/"

  /** `image["src"].replace('../../', '')` */
  function ImageSource(src: string): string {
    ReplaceAll(src, "../../", "")
  }

  /** `os.path.basename(img_src)`, the name the image is saved under. */
  function ImageFileName(src: string): string {
    Basename(ImageSource(src))
  }

  /** The URL the image is downloaded from. */
  function ImageUrl(src: string): string {
    SiteRoot + ImageSource(src)
  }

  /** The local file name has no directory part and ends the cleaned source path. */
  lemma ImageFileNameIsLocal(src: string)
    ensures '/' !in ImageFileName(src) && EndsWith(ImageSource(src), ImageFileName(src))
  {
    LastFieldIsSuffixAfterSeparator(ImageSource(src), '/');
  }

  /** The fragment after the loop over `body.find_all("img")`, for the download
      outcome `ok`, or nothing when an image has no `src`. */
  function LocalizeFragment(ns: seq<Node>, ok: string -> bool): Option<seq<Node>> {
    if ns == [] then Some([])
    else
      match LocalizeFragment(ns[..|ns| - 1], ok)
      case None => None
      case Some(p) =>
        match LocalizeNode(ns[|ns| - 1], ok)
        case None => None
        case Some(q) => Some(p + q)
  }

  function LocalizeNode(n: Node, ok: string -> bool): Option<seq<Node>> {
    match n
    case Img(None) => None
    case Img(Some(src)) => if ok(ImageUrl(src)) then Some([Img(Some(ImageFileName(src)))]) else Some([])
    case Element(name, href, children) =>
      (match LocalizeFragment(children, ok)
       case None => None
       case Some(c) => Some([Element(name, href, c)]))
    case Text(_) => Some([n])
  }

  /** The loop over the images in document order: each is downloaded and repointed,
      or extracted when the download fails. */
  method LocalizeImages(body: seq<Node>, ok: string -> bool) returns (r: Option<seq<Node>>)
    ensures r == LocalizeFragment(body, ok)
    decreases body
  {
    var out: seq<Node> := [];
    var i := 0;
    while i < |body|
      invariant 0 <= i <= |body|
      invariant LocalizeFragment(body[..i], ok) == Some(out)
    {
      var n := body[i];
      assert body[..i + 1][..i] == body[..i];
      var piece: seq<Node>;
      match n {
        case Img(src) =>
          if src.None? {
            LocalizeStops(body, i, ok);
            return None;
          }
          var fileName := Basename(ReplaceAll(src.value, "../../", ""));
          if ok(SiteRoot + ReplaceAll(src.value, "../../", "")) {
            piece := [Img(Some(fileName))];
          } else {
            piece := [];
          }
        case Element(name, href, children) =>
          var c := LocalizeImages(children, ok);
          if c.None? {
            LocalizeStops(body, i, ok);
            return None;
          }
          piece := [Element(name, href, c.value)];
        case Text(_) =>
          piece := [n];
      }
      out := out + piece;
      i := i + 1;
    }
    assert body[..i] == body;
    return Some(out);
  }

  /** Once an image without `src` is reached, the run has ended whatever follows. */
  lemma {:induction false} LocalizeStops(ns: seq<Node>, i: nat, ok: string -> bool)
    requires i < |ns| && LocalizeNode(ns[i], ok).None?
    ensures LocalizeFragment(ns, ok).None?
    decreases |ns|
  {
    if i < |ns| - 1 {
      assert ns[..|ns| - 1][i] == ns[i];
      LocalizeStops(ns[..|ns| - 1], i, ok);
    }
  }

  // ---------------------------------------------------------------------------
  // Position: each node is handled where it stands.

  /** The step on two fragments side by side. */
  lemma {:induction false} LocalizeConcat(a: seq<Node>, b: seq<Node>, ok: string -> bool)
    ensures LocalizeFragment(a + b, ok)
         == (if LocalizeFragment(a, ok).Some? && LocalizeFragment(b, ok).Some?
             then Some(LocalizeFragment(a, ok).value + LocalizeFragment(b, ok).value) else None)
    decreases |b|
  {
    if b == [] {
      assert a + b == a;
      if LocalizeFragment(a, ok).Some? {
        assert LocalizeFragment(a, ok).value + [] == LocalizeFragment(a, ok).value;
      }
    } else {
      var b', x := b[..|b| - 1], b[|b| - 1];
      assert (a + b)[..|a + b| - 1] == a + b';
      assert (a + b)[|a + b| - 1] == x;
      LocalizeConcat(a, b', ok);
      if LocalizeFragment(a, ok).Some? && LocalizeFragment(b', ok).Some? && LocalizeNode(x, ok).Some? {
        var pa, pb, q := LocalizeFragment(a, ok).value, LocalizeFragment(b', ok).value, LocalizeNode(x, ok).value;
        assert pa + pb + q == pa + (pb + q);
      }
    }
  }

  /** A node between two fragments is replaced, where it stands, by what it becomes. */
  lemma LocalizeAround(pre: seq<Node>, x: Node, post: seq<Node>, ok: string -> bool)
    requires LocalizeFragment(pre, ok).Some? && LocalizeNode(x, ok).Some? && LocalizeFragment(post, ok).Some?
    ensures LocalizeFragment(pre + [x] + post, ok)
         == Some(LocalizeFragment(pre, ok).value + LocalizeNode(x, ok).value + LocalizeFragment(post, ok).value)
  {
    assert LocalizeFragment([x], ok) == LocalizeNode(x, ok) by {
      assert [x][..0] == [];
      assert [] + LocalizeNode(x, ok).value == LocalizeNode(x, ok).value;
    }
    LocalizeConcat(pre, [x], ok);
    LocalizeConcat(pre + [x], post, ok);
  }

  /** An image whose download succeeds stays where it is, pointing at its local file. */
  lemma DownloadedImageIsRepointed(pre: seq<Node>, src: string, post: seq<Node>, ok: string -> bool)
    requires ok(ImageUrl(src))
    requires LocalizeFragment(pre, ok).Some? && LocalizeFragment(post, ok).Some?
    ensures LocalizeFragment(pre + [Img(Some(src))] + post, ok)
         == Some(LocalizeFragment(pre, ok).value + [Img(Some(ImageFileName(src)))] + LocalizeFragment(post, ok).value)
  {
    LocalizeAround(pre, Img(Some(src)), post, ok);
  }

  /** An image whose download fails is removed, and its neighbours close up. */
  lemma FailedImageIsRemoved(pre: seq<Node>, src: string, post: seq<Node>, ok: string -> bool)
    requires !ok(ImageUrl(src))
    requires LocalizeFragment(pre, ok).Some? && LocalizeFragment(post, ok).Some?
    ensures LocalizeFragment(pre + [Img(Some(src))] + post, ok)
         == Some(LocalizeFragment(pre, ok).value + LocalizeFragment(post, ok).value)
  {
    LocalizeAround(pre, Img(Some(src)), post, ok);
    assert LocalizeFragment(pre, ok).value + [] == LocalizeFragment(pre, ok).value;
  }

  // ---------------------------------------------------------------------------
  // What the step establishes and preserves.

  /** Every image of the fragment has a `src`. */
  ghost predicate AllHaveSource(ns: seq<Node>) {
    forall k :: 0 <= k < |ns| ==> NodeHasSource(ns[k])
  }

  ghost predicate NodeHasSource(n: Node) {
    match n
    case Img(src) => src.Some?
    case Element(_, _, children) => AllHaveSource(children)
    case Text(_) => true
  }

  /** Every image of the fragment points at a file without directory part. */
  ghost predicate AllLocal(ns: seq<Node>) {
    forall k :: 0 <= k < |ns| ==> NodeLocal(ns[k])
  }

  ghost predicate NodeLocal(n: Node) {
    match n
    case Img(src) => src.Some? && '/' !in src.value
    case Element(_, _, children) => AllLocal(children)
    case Text(_) => true
  }

  /** The fragment with every image taken out: what the step must leave alone. */
  function WithoutImages(ns: seq<Node>): seq<Node> {
    if ns == [] then [] else WithoutImages(ns[..|ns| - 1]) + NodeWithoutImages(ns[|ns| - 1])
  }

  function NodeWithoutImages(n: Node): seq<Node> {
    match n
    case Img(_) => []
    case Element(name, href, children) => [Element(name, href, WithoutImages(children))]
    case Text(_) => [n]
  }

  lemma AllHaveSourceConcat(a: seq<Node>, b: seq<Node>)
    ensures AllHaveSource(a + b) <==> AllHaveSource(a) && AllHaveSource(b)
  {
    if AllHaveSource(a + b) {
      assert forall k :: 0 <= k < |a| ==> (a + b)[k] == a[k];
      assert forall k :: 0 <= k < |b| ==> (a + b)[|a| + k] == b[k];
    }
  }

  lemma AllLocalConcat(a: seq<Node>, b: seq<Node>)
    ensures AllLocal(a + b) <==> AllLocal(a) && AllLocal(b)
  {
    if AllLocal(a + b) {
      assert forall k :: 0 <= k < |a| ==> (a + b)[k] == a[k];
      assert forall k :: 0 <= k < |b| ==> (a + b)[|a| + k] == b[k];
    }
  }

  lemma {:induction false} WithoutImagesConcat(a: seq<Node>, b: seq<Node>)
    ensures WithoutImages(a + b) == WithoutImages(a) + WithoutImages(b)
    decreases |b|
  {
    if b == [] {
      assert a + b == a;
    } else {
      var b' := b[..|b| - 1];
      assert (a + b)[..|a + b| - 1] == a + b';
      assert (a + b)[|a + b| - 1] == b[|b| - 1];
      WithoutImagesConcat(a, b');
    }
  }

  /** The run ends in the step exactly when some image, at any depth, has no `src`. */
  lemma {:induction false} LocalizeFailsIffSourceMissing(ns: seq<Node>, ok: string -> bool)
    ensures LocalizeFragment(ns, ok).Some? <==> AllHaveSource(ns)
    decreases ns
  {
    if ns != [] {
      var init, last := ns[..|ns| - 1], ns[|ns| - 1];
      LocalizeFailsIffSourceMissing(init, ok);
      if last.Element? {
        LocalizeFailsIffSourceMissing(last.children, ok);
      }
      AllHaveSourceConcat(init, [last]);
      assert ns == init + [last];
    }
  }

  /** After the step every remaining image points at a local file name. */
  lemma {:induction false} LocalizedImagesAreLocal(ns: seq<Node>, ok: string -> bool)
    requires LocalizeFragment(ns, ok).Some?
    ensures AllLocal(LocalizeFragment(ns, ok).value)
    decreases ns
  {
    if ns != [] {
      var init, last := ns[..|ns| - 1], ns[|ns| - 1];
      LocalizedImagesAreLocal(init, ok);
      var q := LocalizeNode(last, ok).value;
      match last {
        case Img(src) =>
          ImageFileNameIsLocal(src.value);
        case Element(_, _, children) =>
          LocalizedImagesAreLocal(children, ok);
        case Text(_) =>
      }
      assert AllLocal(q);
      AllLocalConcat(LocalizeFragment(init, ok).value, q);
    }
  }

  /** Only images change: taking the images out of the result gives the input with
      its images taken out. */
  lemma {:induction false} LocalizeTouchesOnlyImages(ns: seq<Node>, ok: string -> bool)
    requires LocalizeFragment(ns, ok).Some?
    ensures WithoutImages(LocalizeFragment(ns, ok).value) == WithoutImages(ns)
    decreases ns
  {
    if ns != [] {
      var init, last := ns[..|ns| - 1], ns[|ns| - 1];
      LocalizeTouchesOnlyImages(init, ok);
      var q := LocalizeNode(last, ok).value;
      assert WithoutImages(q) == NodeWithoutImages(last) by {
        match last {
          case Img(_) =>
            if q != [] {
              assert q == [q[0]] && q[0].Img?;
              assert [q[0]][..0] == [];
            }
          case Element(_, _, children) =>
            LocalizeTouchesOnlyImages(children, ok);
            assert [q[0]][..0] == [];
          case Text(_) =>
            assert [last][..0] == [];
        }
      }
      WithoutImagesConcat(LocalizeFragment(init, ok).value, q);
    }
  }

  /** Localising keeps the visible text. */
  lemma {:induction false} LocalizeKeepsText(ns: seq<Node>, ok: string -> bool)
    requires LocalizeFragment(ns, ok).Some?
    ensures TextContent(LocalizeFragment(ns, ok).value) == TextContent(ns)
    decreases ns
  {
    if ns != [] {
      var init, last := ns[..|ns| - 1], ns[|ns| - 1];
      LocalizeKeepsText(init, ok);
      var q := LocalizeNode(last, ok).value;
      assert TextContent(q) == NodeText(last) by {
        match last {
          case Img(_) =>
            if q != [] {
              assert [q[0]][..0] == [];
            }
          case Element(_, _, children) =>
            LocalizeKeepsText(children, ok);
            assert [q[0]][..0] == [];
          case Text(_) =>
            assert [last][..0] == [];
        }
      }
      TextContentConcat(LocalizeFragment(init, ok).value, q);
    }
  }
}
