/** The POSIX path functions the link rewriter uses (Python's `posixpath`):
    `basename`, `dirname`, `join`, `normpath` and `abspath`. The process's current
    working directory, which `abspath` reads, is an explicit parameter `cwd`. */
module Paths {
  import opened Strings

  /** `os.path.basename(p)`: everything after the last '/'. */
  function Basename(p: string): string {
    LastField(p, '/')
  }

  /** `s.rstrip('/')` */
  function StripTrailingSlashes(s: string): string
    decreases |s|
  {
    if |s| > 0 && s[|s| - 1] == '/' then StripTrailingSlashes(s[..|s| - 1]) else s
  }

  predicate AllSlashes(s: string) {
    forall i :: 0 <= i < |s| ==> s[i] == '/'
  }

  /** `os.path.dirname(p)`: everything up to the last '/', without its trailing
      slashes unless it consists of slashes only. */
  function Dirname(p: string): string {
    LastFieldIsSuffixAfterSeparator(p, '/');
    var head := p[..|p| - |Basename(p)|];
    if head != "" && !AllSlashes(head) then StripTrailingSlashes(head) else head
  }

  /** `os.path.join(a, b)` */
  function JoinPath(a: string, b: string): string {
    if StartsWith(b, "/") then b
    else if a == "" || EndsWith(a, "/") then a + b
    else a + "/" + b
  }

  /** How many leading slashes `normpath` keeps: two exactly when the path starts
      with exactly two, otherwise one for an absolute path and none for a relative one. */
  function LeadingSlashes(p: string): string {
    if StartsWith(p, "//") && !StartsWith(p, "///") then "//"
    else if StartsWith(p, "/") then "/"
    else ""
  }

  /** The segment loop of `normpath`: empty and "." segments are dropped, ".." pops
      the previous segment, except that a ".." with nothing to pop is kept in a
      relative path (and dropped in a rooted one), and a ".." after a kept ".." is kept. */
  function NormSegments(comps: seq<string>, acc: seq<string>, rooted: bool): seq<string>
    decreases |comps|
  {
    if comps == [] then acc
    else
      var c := comps[0];
      var acc' :=
        if c == "" || c == "." then acc
        else if c != ".." || (!rooted && acc == []) || (acc != [] && acc[|acc| - 1] == "..") then acc + [c]
        else if acc != [] then acc[..|acc| - 1]
        else acc;
      NormSegments(comps[1..], acc', rooted)
  }

  /** `os.path.normpath(p)` */
  function NormPath(p: string): string {
    if p == "" then "."
    else
      var lead := LeadingSlashes(p);
      var r := lead + Join(NormSegments(Split(p, '/'), [], lead != ""), '/');
      if r == "" then "." else r
  }

  /** `os.path.abspath(p)` run in the working directory `cwd`. */
  function AbsPath(cwd: string, p: string): string {
    NormPath(if StartsWith(p, "/") then p else JoinPath(cwd, p))
  }

  // ---------------------------------------------------------------------------
  // The shape of a normalised path.

  /** Segments as `normpath` leaves them: none is empty or ".", and the ".."
      segments form a leading run that a rooted path does not have at all. */
  ghost predicate NormalSegments(segs: seq<string>, rooted: bool) {
    (forall k :: 0 <= k < |segs| ==> segs[k] != "" && segs[k] != "." && '/' !in segs[k])
    && (forall k :: 0 <= k < |segs| && segs[k] == ".." ==> !rooted)
    && (forall j, k :: 0 <= j < k < |segs| && segs[k] == ".." ==> segs[j] == "..")
  }

  /** The segment loop keeps segments normal. */
  lemma {:induction false} NormSegmentsAreNormal(comps: seq<string>, acc: seq<string>, rooted: bool)
    requires forall k :: 0 <= k < |comps| ==> '/' !in comps[k]
    requires NormalSegments(acc, rooted)
    ensures NormalSegments(NormSegments(comps, acc, rooted), rooted)
    decreases |comps|
  {
    if comps != [] {
      var c := comps[0];
      var acc' :=
        if c == "" || c == "." then acc
        else if c != ".." || (!rooted && acc == []) || (acc != [] && acc[|acc| - 1] == "..") then acc + [c]
        else if acc != [] then acc[..|acc| - 1]
        else acc;
      assert NormalSegments(acc', rooted) by {
        if c != "" && c != "." && (c != ".." || (!rooted && acc == []) || (acc != [] && acc[|acc| - 1] == "..")) {
          assert acc' == acc + [c];
          if c == ".." && acc != [] {
            assert forall j :: 0 <= j < |acc| ==> acc[j] == ".." by {
              forall j | 0 <= j < |acc| ensures acc[j] == ".." {
                if j < |acc| - 1 {
                  assert acc[|acc| - 1] == "..";
                }
              }
            }
          }
        }
      }
      NormSegmentsAreNormal(comps[1..], acc', rooted);
    }
  }

  /** Normal segments pass through the segment loop unchanged. */
  lemma {:induction false} NormSegmentsKeepsNormal(segs: seq<string>, acc: seq<string>, rooted: bool)
    requires NormalSegments(acc + segs, rooted)
    ensures NormSegments(segs, acc, rooted) == acc + segs
    decreases |segs|
  {
    if segs != [] {
      var c := segs[0];
      assert (acc + segs)[|acc|] == c;
      if c == ".." && acc != [] {
        assert (acc + segs)[|acc| - 1] == acc[|acc| - 1];
      }
      assert acc + segs == (acc + [c]) + segs[1..];
      NormSegmentsKeepsNormal(segs[1..], acc + [c], rooted);
    }
  }

  /** Empty segments, as produced by leading slashes, are skipped by the loop. */
  lemma SkipEmptySegment(segs: seq<string>, acc: seq<string>, rooted: bool)
    ensures NormSegments([""] + segs, acc, rooted) == NormSegments(segs, acc, rooted)
  {
    assert ([""] + segs)[1..] == segs;
  }

  /** A non-empty join of normal segments does not start with a slash. */
  lemma JoinStartsWithSegment(segs: seq<string>, rooted: bool)
    requires segs != [] && NormalSegments(segs, rooted)
    ensures |Join(segs, '/')| > 0 && Join(segs, '/')[0] != '/'
  {
    var body := Join(segs, '/');
    assert segs[0] != "" && '/' !in segs[0];
    if |segs| > 1 {
      assert body == segs[0] + (['/'] + Join(segs[1..], '/'));
    }
    assert body[0] == segs[0][0];
  }

  /** The fields of a join of normal segments are those segments (or the single
      empty field when there are none), and the loop gives them back unchanged. */
  lemma ResplitNormal(segs: seq<string>, rooted: bool)
    requires NormalSegments(segs, rooted)
    ensures Split(Join(segs, '/'), '/') == (if segs == [] then [""] else segs)
    ensures NormSegments(Split(Join(segs, '/'), '/'), [], rooted) == segs
  {
    if segs == [] {
      assert Split("", '/') == [""];
      assert [""] == [""] + [];
      SkipEmptySegment([], [], rooted);
    } else {
      SplitJoin(segs, '/');
      NormSegmentsKeepsNormal(segs, [], rooted);
      assert [] + segs == segs;
    }
  }

  /** `normpath` of a non-empty path is its leading slashes followed by the joined
      result of the segment loop. */
  lemma NormPathOf(p: string, lead: string, segs: seq<string>, joined: string)
    requires p != "" && LeadingSlashes(p) == lead
    requires NormSegments(Split(p, '/'), [], lead != "") == segs && Join(segs, '/') == joined
    requires lead + joined != ""
    ensures NormPath(p) == lead + joined
    ensures lead == "" ==> NormPath(p) == joined
  {
    assert "" + joined == joined;
  }

  /** Normalising a relative normal form gives it back. */
  lemma RelativeNormalFormIsFixed(segs: seq<string>)
    requires NormalSegments(segs, false) && segs != []
    ensures NormPath(Join(segs, '/')) == Join(segs, '/')
  {
    ResplitNormal(segs, false);
    JoinStartsWithSegment(segs, false);
    RelativePath(Join(segs, '/'), segs);
  }

  /** The string side of the lemma above. */
  lemma RelativePath(r: string, segs: seq<string>)
    requires r == Join(segs, '/') && NormSegments(Split(r, '/'), [], false) == segs
    requires |r| > 0 && r[0] != '/'
    ensures NormPath(r) == r
  {
    assert LeadingSlashes(r) == "" by {
      assert r[..1] == [r[0]];
    }
    NormPathOf(r, "", segs, r);
  }

  /** Normalising a normal form with one leading slash gives it back. */
  lemma RootedNormalFormIsFixed(segs: seq<string>)
    requires NormalSegments(segs, true)
    ensures NormPath("/" + Join(segs, '/')) == "/" + Join(segs, '/')
  {
    var body := Join(segs, '/');
    var r := "/" + body;
    ResplitNormal(segs, true);
    assert Split(r, '/') == [""] + Split(body, '/') by {
      assert r == ['/'] + body;
      SplitLeadingSeparator('/', body);
    }
    SkipEmptySegment(Split(body, '/'), [], true);
    assert LeadingSlashes(r) == "/" by {
      if segs != [] {
        JoinStartsWithSegment(segs, true);
        assert r[1] == body[0];
      }
    }
    NormPathOf(r, "/", segs, body);
  }

  /** Normalising a normal form with two leading slashes gives it back. */
  lemma DoubleRootedNormalFormIsFixed(segs: seq<string>)
    requires NormalSegments(segs, true)
    ensures NormPath("//" + Join(segs, '/')) == "//" + Join(segs, '/')
  {
    var body := Join(segs, '/');
    ResplitNormal(segs, true);
    if segs != [] {
      JoinStartsWithSegment(segs, true);
    }
    DoubleRootedPath(body, segs);
  }

  /** The string side of the lemma above: a body whose fields the loop leaves as
      `segs`, and which does not itself start with a slash. */
  lemma DoubleRootedPath(body: string, segs: seq<string>)
    requires body == Join(segs, '/') && NormSegments(Split(body, '/'), [], true) == segs
    requires segs != [] ==> |body| > 0 && body[0] != '/'
    ensures NormPath("//" + body) == "//" + body
  {
    var r := "//" + body;
    var fields := Split(body, '/');
    assert Split(r, '/') == [""] + ([""] + fields) by {
      assert r == ['/'] + (['/'] + body);
      SplitLeadingSeparator('/', ['/'] + body);
      SplitLeadingSeparator('/', body);
    }
    SkipEmptySegment([""] + fields, [], true);
    SkipEmptySegment(fields, [], true);
    assert LeadingSlashes(r) == "//" by {
      if body != "" {
        assert r[2] == body[0];
      }
    }
    NormPathOf(r, "//", segs, body);
  }

  /** "." is the normal form of the empty relative path. */
  lemma DotIsNormal()
    ensures NormPath(".") == "."
  {
    assert Split(".", '/') == ["."];
    assert NormSegments(["."], [], false) == NormSegments([], [], false);
    assert LeadingSlashes(".") == "";
  }

  /** `normpath` puts a path in normal form: a normalised path is normalised already. */
  lemma NormPathIdempotent(p: string)
    ensures NormPath(NormPath(p)) == NormPath(p)
  {
    if p == "" {
      DotIsNormal();
    } else {
      var lead := LeadingSlashes(p);
      var segs := NormSegments(Split(p, '/'), [], lead != "");
      assert NormalSegments([], lead != "");
      NormSegmentsAreNormal(Split(p, '/'), [], lead != "");
      var r := lead + Join(segs, '/');
      var q := NormPath(p);
      assert q == if r == "" then "." else r;
      if lead == "/" {
        RootedNormalFormIsFixed(segs);
      } else if lead == "//" {
        DoubleRootedNormalFormIsFixed(segs);
      } else if segs != [] {
        assert r == Join(segs, '/');
        RelativeNormalFormIsFixed(segs);
      } else {
        assert r == "";
        DotIsNormal();
      }
    }
  }
}
