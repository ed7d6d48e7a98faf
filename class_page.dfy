/** `parse_class_page(module, class_name)` (main.py:191-260): the class page is
    fetched, its inheritance links stripped of their anchors, its links cleaned and its
    images localised; the page is saved as `<class>.html`, and the index gets one
    entry for the class and one per method listed in the page's synopsis. */
module ClassPage {
  import opened Wrappers
  import opened Strings
  import opened Paths
  import opened Html
  import opened IndexStore
  import opened Pages
  import opened LinkRewriter
  import opened Inheritance
  import opened Images

  /** What a fetched class page yields: its `<title>` text, the children of its body
      wrapper, and the links of its synopsis section when it has one. */
  datatype ClassDoc = ClassDoc(title: string, body: seq<Node>, synopsis: Option<seq<MethodLink>>)

  /** An `a` element of class "reference internal" in the synopsis: its `.string`
      and its `href`, either of which may be absent. */
  datatype MethodLink = MethodLink(text: Option<string>, href: Option<string>)

  function ClassUrl(mod: string, cls: string): string {
    "https://doc-snapshots.qt.io/qtforpython/PySide2/" + mod + "/" + cls + ".html"
  }

  /** `"%s.html" % class_name` */
  function ClassFile(cls: string): string {
    cls + ".html"
  }

  // ---------------------------------------------------------------------------
  // Entries.

  /** The entry type of a class, by the suffix of its name, tested in the order
      Event, Interface, Enum. */
  function ClassifyClass(cls: string): (t: EntryType)
    ensures t == Event || t == Interface || t == Enum || t == Class
  {
    if EndsWith(cls, "Event") then Event
    else if EndsWith(cls, "Interface") then Interface
    else if EndsWith(cls, "Enum") then Enum
    else Class
  }

  /** A string with a suffix ends in the suffix's last character. */
  lemma EndsWithLast(s: string, suffix: string)
    requires |suffix| > 0 && EndsWith(s, suffix)
    ensures |s| > 0 && s[|s| - 1] == suffix[|suffix| - 1]
  {
    assert s[|s| - |suffix|..][|suffix| - 1] == s[|s| - 1];
  }

  /** The three suffixes end in different letters, so at most one applies and the
      order of the tests does not matter: each type is chosen exactly when its
      suffix is present, and `Class` exactly when none is. */
  lemma ClassifyBySuffix(cls: string)
    ensures ClassifyClass(cls) == Event <==> EndsWith(cls, "Event")
    ensures ClassifyClass(cls) == Interface <==> EndsWith(cls, "Interface")
    ensures ClassifyClass(cls) == Enum <==> EndsWith(cls, "Enum")
    ensures ClassifyClass(cls) == Class
        <==> !EndsWith(cls, "Event") && !EndsWith(cls, "Interface") && !EndsWith(cls, "Enum")
  {
    if EndsWith(cls, "Event") {
      EndsWithLast(cls, "Event");
    }
    if EndsWith(cls, "Interface") {
      EndsWithLast(cls, "Interface");
    }
    if EndsWith(cls, "Enum") {
      EndsWithLast(cls, "Enum");
    }
  }

  /** The classification of a few PySide2 class names. */
  lemma ClassifyExamples()
    ensures ClassifyClass("QKeyEvent") == Event
    ensures ClassifyClass("QAccessibleInterface") == Interface
    ensures ClassifyClass("QtMsgEnum") == Enum
    ensures ClassifyClass("QWidget") == Class
  {
    assert "QKeyEvent"[4..] == "Event";
    assert "QAccessibleInterface"[11..] == "Interface";
    assert !EndsWith("QtMsgEnum", "Event") by { assert "QtMsgEnum"[8] != "Event"[4]; }
    assert !EndsWith("QtMsgEnum", "Interface") by { assert "QtMsgEnum"[8] != "Interface"[8]; }
    assert "QtMsgEnum"[5..] == "Enum";
    assert !EndsWith("QWidget", "Event") by { assert "QWidget"[2..] == "idget"; }
    assert !EndsWith("QWidget", "Interface") by { assert "QWidget"[2..] != "Interface"[4..]; }
    assert !EndsWith("QWidget", "Enum") by { assert "QWidget"[6] != "Enum"[3]; }
  }

  /** The class's own entry: `PySide2.<module>.<class>`, its type, its page. */
  function ClassEntry(mod: string, cls: string): (e: Entry)
    ensures (e.kind == Event || e.kind == Interface || e.kind == Enum || e.kind == Class) && e.path == ClassFile(cls)
    ensures e.name == "PySide2." + mod + "." + cls
  {
    Entry("PySide2." + mod + "." + cls, ClassifyClass(cls), ClassFile(cls))
  }

  /** `"%s" % x` for a value that is a string or `None`. */
  function Format(o: Option<string>): string {
    match o
    case Some(s) => s
    case None => "None"
  }

  /** The entry of one synopsis method: named after the class and the link text,
      pointing at the class page followed by the link's `href`. */
  function MethodEntry(mod: string, cls: string, link: MethodLink): (e: Entry)
    requires link.href.Some?
    ensures e.kind == Method && e.path == ClassFile(cls) + link.href.value
    ensures e.name == "PySide2." + mod + "." + cls + "." + Format(link.text)
  {
    Entry("PySide2." + mod + "." + cls + "." + Format(link.text), Method, ClassFile(cls) + link.href.value)
  }

  /** The method entries registered and whether the loop got to its end; a link
      without `href` makes `method["href"]` raise, which ends the run there. */
  datatype Registration = Registration(entries: seq<Entry>, complete: bool)

  /** The loop over the synopsis links: one `Method` entry per link, in order, up to
      the first link without an `href`. */
  function MethodEntries(mod: string, cls: string, links: seq<MethodLink>): (r: Registration)
    ensures |r.entries| <= |links|
    ensures r.complete <==> forall k :: 0 <= k < |links| ==> links[k].href.Some?
    ensures r.complete ==> |r.entries| == |links|
    ensures !r.complete ==> |r.entries| < |links| && links[|r.entries|].href.None?
    ensures forall k :: 0 <= k < |r.entries| ==> links[k].href.Some? && r.entries[k] == MethodEntry(mod, cls, links[k])
  {
    if links == [] then Registration([], true)
    else
      var init := links[..|links| - 1];
      var last := links[|links| - 1];
      var p := MethodEntries(mod, cls, init);
      assert forall k :: 0 <= k < |init| ==> init[k] == links[k];
      if !p.complete then p
      else if last.href.None? then Registration(p.entries, false)
      else Registration(p.entries + [MethodEntry(mod, cls, last)], true)
  }

  /** `for method in methods: insert_entry(...)` */
  method RegisterMethods(store: Store, mod: string, cls: string, links: seq<MethodLink>) returns (complete: bool)
    requires store.Valid()
    modifies store
    ensures store.Valid()
    ensures store.rows == InsertAll(old(store.rows), MethodEntries(mod, cls, links).entries)
    ensures complete == MethodEntries(mod, cls, links).complete
  {
    var i := 0;
    while i < |links|
      invariant 0 <= i <= |links|
      invariant store.Valid()
      invariant MethodEntries(mod, cls, links[..i]).complete
      invariant store.rows == InsertAll(old(store.rows), MethodEntries(mod, cls, links[..i]).entries)
    {
      var link := links[i];
      assert links[..i + 1][..i] == links[..i];
      if link.href.None? {
        assert MethodEntries(mod, cls, links[..i + 1]) == Registration(MethodEntries(mod, cls, links[..i]).entries, false);
        MethodEntriesStop(mod, cls, links, i + 1);
        return false;
      }
      ghost var before := MethodEntries(mod, cls, links[..i]).entries;
      store.Insert(Entry("PySide2." + mod + "." + cls + "." + Format(link.text), Method, cls + ".html" + link.href.value));
      assert (before + [MethodEntry(mod, cls, link)])[..|before|] == before;
      i := i + 1;
    }
    assert links[..i] == links;
    return true;
  }

  /** Once the loop has stopped on a prefix, the rest of the links changes nothing. */
  lemma {:induction false} MethodEntriesStop(mod: string, cls: string, links: seq<MethodLink>, i: nat)
    requires i <= |links| && !MethodEntries(mod, cls, links[..i]).complete
    ensures MethodEntries(mod, cls, links) == MethodEntries(mod, cls, links[..i])
    decreases |links| - i
  {
    if i < |links| {
      assert links[..i + 1][..i] == links[..i];
      MethodEntriesStop(mod, cls, links, i + 1);
    } else {
      assert links[..i] == links;
    }
  }

  /** The synopsis links as the cleaned body holds them: `clean_links` has run on
      the body they are found in, so a link it selects is flattened or, out of
      scope, unwrapped and no longer an `a` element. */
  function CleanMethodLinks(links: seq<MethodLink>, keep: string -> bool): seq<MethodLink> {
    if links == [] then []
    else
      var last := links[|links| - 1];
      CleanMethodLinks(links[..|links| - 1], keep)
      + (if last.href.Some? && MatchesParentPattern(last.href.value) then
           if keep(last.href.value) then [last.(href := Some(LastField(last.href.value, '/')))] else []
         else [last])
  }

  // ---------------------------------------------------------------------------
  // The page as a whole.

  /** What one call of `parse_class_page` leaves behind: the pages saved, the index
      entries inserted, in order, and whether the call returned normally. */
  datatype ClassOutcome = ClassOutcome(pages: seq<Saved>, entries: seq<Entry>, complete: bool)

  /** The body after the three rewrites, or nothing when one of them ends the run. */
  function ClassBody(body: seq<Node>, keep: string -> bool, ok: string -> bool): Option<seq<Node>> {
    match StripAnchors(body)
    case None => None
    case Some(stripped) => LocalizeFragment(CleanFragment(stripped, keep), ok)
  }

  /** `parse_class_page` on the page `fetched` from `ClassUrl(mod, cls)`: a page
      that is not found makes `document.find` raise, which ends the run. */
  function ClassPageOutcome(mod: string, cls: string, fetched: Option<ClassDoc>, cwd: string, ok: string -> bool): ClassOutcome {
    match fetched
    case None => ClassOutcome([], [], false)
    case Some(doc) =>
      var keep := ScopeOf(ClassUrl(mod, cls), cwd);
      SavedClass(mod, cls, doc, keep, ClassBody(doc.body, keep, ok))
  }

  /** The rest of `parse_class_page` once the body rewrites have given `body`. */
  function SavedClass(mod: string, cls: string, doc: ClassDoc, keep: string -> bool, body: Option<seq<Node>>): ClassOutcome {
    match body
    case None => ClassOutcome([], [], false)
    case Some(b) =>
      var reg := if doc.synopsis.None? then Registration([], true)
                 else MethodEntries(mod, cls, CleanMethodLinks(doc.synopsis.value, keep));
      ClassOutcome([Saved(ClassFile(cls), Page(doc.title, b))], [ClassEntry(mod, cls)] + reg.entries, reg.complete)
  }

  /** A class page registers nothing unless it is saved; once saved, it registers
      exactly one entry that is not a method, first, for the class at its page, and
      every other entry is a method entry whose path starts with the class page. */
  lemma ClassPageEntries(mod: string, cls: string, fetched: Option<ClassDoc>, cwd: string, ok: string -> bool)
    ensures var o := ClassPageOutcome(mod, cls, fetched, cwd, ok);
      (o.pages == [] ==> o.entries == [] && !o.complete)
      && (o.pages != [] ==>
            |o.pages| == 1 && o.pages[0].file == ClassFile(cls)
            && |o.entries| >= 1 && o.entries[0] == ClassEntry(mod, cls)
            && forall k :: 1 <= k < |o.entries| ==>
                 o.entries[k].kind == Method && StartsWith(o.entries[k].path, ClassFile(cls)))
  {
    match fetched
    case None =>
    case Some(doc) =>
      var keep := ScopeOf(ClassUrl(mod, cls), cwd);
      SavedClassEntries(mod, cls, doc, keep, ClassBody(doc.body, keep, ok));
  }

  lemma SavedClassEntries(mod: string, cls: string, doc: ClassDoc, keep: string -> bool, body: Option<seq<Node>>)
    ensures var o := SavedClass(mod, cls, doc, keep, body);
      (o.pages == [] ==> o.entries == [] && !o.complete)
      && (o.pages != [] ==>
            |o.pages| == 1 && o.pages[0].file == ClassFile(cls)
            && |o.entries| >= 1 && o.entries[0] == ClassEntry(mod, cls)
            && forall k :: 1 <= k < |o.entries| ==>
                 o.entries[k].kind == Method && StartsWith(o.entries[k].path, ClassFile(cls)))
  {
    if body.Some? {
      if doc.synopsis.Some? {
        MethodEntriesPaths(mod, cls, CleanMethodLinks(doc.synopsis.value, keep));
      }
      var reg := if doc.synopsis.None? then Registration([], true)
                 else MethodEntries(mod, cls, CleanMethodLinks(doc.synopsis.value, keep));
      var es := [ClassEntry(mod, cls)] + reg.entries;
      forall k | 1 <= k < |es|
        ensures es[k].kind == Method && StartsWith(es[k].path, ClassFile(cls))
      {
        assert es[k] == reg.entries[k - 1];
      }
    }
  }

  /** Every method entry is a `Method` pointing into the class page. */
  lemma MethodEntriesPaths(mod: string, cls: string, links: seq<MethodLink>)
    ensures var r := MethodEntries(mod, cls, links);
      forall k :: 0 <= k < |r.entries| ==> r.entries[k].kind == Method && StartsWith(r.entries[k].path, ClassFile(cls))
  {
    var r := MethodEntries(mod, cls, links);
    forall k | 0 <= k < |r.entries|
      ensures r.entries[k].kind == Method && StartsWith(r.entries[k].path, ClassFile(cls))
    {
      var path := r.entries[k].path;
      assert path == ClassFile(cls) + links[k].href.value;
      assert path[..|ClassFile(cls)|] == ClassFile(cls);
    }
  }

  /** The page saved for a class is its body with every remaining image local, and
      with the visible text of the body before the images were handled. */
  lemma ClassBodyShape(body: seq<Node>, keep: string -> bool, ok: string -> bool)
    requires ClassBody(body, keep, ok).Some?
    ensures AllLocal(ClassBody(body, keep, ok).value)
    ensures TextContent(ClassBody(body, keep, ok).value) == TextContent(body)
  {
    var stripped := StripAnchors(body).value;
    var cleaned := CleanFragment(stripped, keep);
    LocalizedImagesAreLocal(cleaned, ok);
    LocalizeKeepsText(cleaned, ok);
    CleanKeepsText(stripped, keep);
    if StripInheritance(body).Stripped? {
      StripInheritanceOnlyCuts(body);
      CutKeepsText(body, stripped);
    }
  }

  /** The body rewrites of `parse_class_page`: the inheritance anchors are cut, the
      links cleaned and the images localised, or the run ends on the way. */
  method RewriteClassBody(body: seq<Node>, url: string, cwd: string, ok: string -> bool)
    returns (r: Option<seq<Node>>)
    ensures r == ClassBody(body, ScopeOf(url, cwd), ok)
  {
    var stripped := StripInheritanceLinks(body);
    var cut: seq<Node>;
    match stripped {
      case NoMarker => cut := body;
      case Stripped(ns) => cut := ns;
      case HrefMissing => return None;
    }
    var cleaned := CleanLinks(cut, url, cwd);
    r := LocalizeImages(cleaned, ok);
  }

  /** The rest of `parse_class_page` once the body `b` is ready: the page is saved,
      the class registered under its type, then its methods. */
  method SaveClassPage(store: Store, docs: Documents, mod: string, cls: string, doc: ClassDoc,
                       keep: string -> bool, b: seq<Node>)
    returns (complete: bool)
    requires store.Valid()
    modifies store, docs
    ensures store.Valid()
    ensures var o := SavedClass(mod, cls, doc, keep, Some(b));
      store.rows == InsertAll(old(store.rows), o.entries)
      && docs.files == SaveAll(old(docs.files), o.pages)
      && complete == o.complete
  {
    var file := cls + ".html";
    docs.Save(file, doc.title, b);
    var kind := Class;
    if EndsWith(cls, "Event") {
      kind := Event;
    } else if EndsWith(cls, "Interface") {
      kind := Interface;
    } else if EndsWith(cls, "Enum") {
      kind := Enum;
    }
    store.Insert(Entry("PySide2." + mod + "." + cls, kind, file));
    ghost var afterClass := store.rows;
    ghost var o := SavedClass(mod, cls, doc, keep, Some(b));
    if doc.synopsis.Some? {
      var links := CleanMethodLinks(doc.synopsis.value, keep);
      complete := RegisterMethods(store, mod, cls, links);
    } else {
      complete := true;
    }
    assert o.entries == [ClassEntry(mod, cls)] + o.entries[1..];
    InsertAllConcat(old(store.rows), [ClassEntry(mod, cls)], o.entries[1..]);
    assert InsertAll(old(store.rows), [ClassEntry(mod, cls)]) == afterClass by {
      assert [ClassEntry(mod, cls)][..0] == [];
    }
  }

  /** `parse_class_page(mod, cls)` against the page oracle `fetch`, the download
      oracle `ok`, in the working directory `cwd`. */
  method ParseClassPage(store: Store, docs: Documents, mod: string, cls: string,
                        fetch: string -> Option<ClassDoc>, cwd: string, ok: string -> bool)
    returns (complete: bool)
    requires store.Valid()
    modifies store, docs
    ensures store.Valid()
    ensures var o := ClassPageOutcome(mod, cls, fetch(ClassUrl(mod, cls)), cwd, ok);
      store.rows == InsertAll(old(store.rows), o.entries)
      && docs.files == SaveAll(old(docs.files), o.pages)
      && complete == o.complete
  {
    var url := "https://doc-snapshots.qt.io/qtforpython/PySide2/" + mod + "/" + cls + ".html";
    var document := fetch(url);
    if document.None? {
      return false;
    }
    var doc := document.value;
    var body := RewriteClassBody(doc.body, url, cwd, ok);
    if body.None? {
      return false;
    }
    complete := SaveClassPage(store, docs, mod, cls, doc, ScopeOf(url, cwd), body.value);
  }
}
