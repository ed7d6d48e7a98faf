/** The crawl of `main` (main.py:263-305): the start page is saved, every module
    index page it links to is fetched, saved and indexed together with its class
    pages, a module whose page is not found is remembered, and at the end the start
    page loses one link for every such module. The network is an oracle `Web`
    answering each URL; the working directory `cwd` is the one link resolution uses. */
module Crawl {
  import opened Wrappers
  import opened Strings
  import opened Html
  import opened IndexStore
  import opened Pages
  import opened LinkRewriter
  import opened ClassPage
  import opened RootPage

  /** What the start page yields: its title, the children of its body wrapper with
      the "qt-modules" block removed, and the text of each module link on it. */
  datatype RootDoc = RootDoc(title: string, body: seq<Node>, moduleLinks: seq<string>)

  /** What a module index page yields: its title, the children of its body wrapper
      with the hidden block removed, and the names of the classes its table of
      contents links to. */
  datatype ModuleDoc = ModuleDoc(title: string, body: seq<Node>, classes: seq<string>)

  /** The site as the crawler sees it: the start page (or nothing, when it cannot be
      fetched), the page behind each URL, and the outcome of each image download. */
  datatype Web = Web(
    root: Option<RootDoc>,
    moduleAt: string -> Option<ModuleDoc>,
    classAt: string -> Option<ClassDoc>,
    downloadOk: string -> bool)

  const RootFile: string := "index.html"

  function ModuleUrl(m: string): string {
    "https://doc-snapshots.qt.io/qtforpython/PySide2/" + m + "/index.html"
  }

  /** `"%s-index.html" % module` */
  function ModuleFile(m: string): string {
    m + "-index.html"
  }

  /** `module.string.replace(' ', '')`: the link text without its spaces. */
  function Slug(text: string): (s: string)
    ensures s == Without(text, ' ') && ' ' !in s
  {
    ReplaceCharByNothing(text, ' ');
    ReplaceAll(text, " ", "")
  }

  /** The start page links to a module's index as "PySide2/<module>/index.html";
      after the rewrite the link points at the file the module page is saved as. */
  lemma RootLinkPointsAtModuleFile(m: string)
    requires '/' !in m
    ensures RootHref("PySide2/" + m + "/index.html") == ModuleFile(m)
  {
    var h := "PySide2/" + m + "/index.html";
    assert h[..|"PySide2/"|] == "PySide2/";
    assert h[|"PySide2/"|..] == m + "/index.html";
    ReplaceSkipsPrefix(m, "/index.html", "-index.html", "/index.html");
    assert ReplaceAll("/index.html", "/index.html", "-index.html") == "-index.html" by {
      assert "/index.html"[|"/index.html"|..] == "";
    }
  }

  // ---------------------------------------------------------------------------
  // What the run leaves behind, as a trace of its effects.

  /** The entries inserted and pages saved, in order, the modules found missing,
      and whether the run is still going (`ok`) or has ended in an exception. */
  datatype Trace = Trace(entries: seq<Entry>, pages: seq<Saved>, missing: seq<string>, ok: bool)

  /** One part of the run after another; nothing happens after an exception. */
  function Then(t: Trace, u: Trace): Trace {
    if !t.ok then t
    else Trace(t.entries + u.entries, t.pages + u.pages, t.missing + u.missing, u.ok)
  }

  /** `parse_main_page`: the rewritten start page is saved; a start page that cannot
      be fetched makes `document.find` raise. */
  function RootTrace(web: Web): Trace {
    match web.root
    case None => Trace([], [], [], false)
    case Some(r) => Trace([], [Saved(RootFile, Page(r.title, RewriteRoot(r.body)))], [], true)
  }

  function RootLinks(web: Web): seq<string> {
    if web.root.Some? then web.root.value.moduleLinks else []
  }

  /** `parse_module_index_page`, up to its return: a page that is not found leaves
      only the module's slug in the list of missing modules; a page that is found is
      cleaned, saved and indexed as a `Module`. */
  function ModulePageTrace(web: Web, cwd: string, m: string): Trace {
    match web.moduleAt(ModuleUrl(m))
    case None => Trace([], [], [m], true)
    case Some(doc) =>
      Trace([Entry(m, Module, ModuleFile(m))],
            [Saved(ModuleFile(m), Page(doc.title, CleanFragment(doc.body, ScopeOf(ModuleUrl(m), cwd))))],
            [], true)
  }

  function ClassesOf(web: Web, m: string): seq<string> {
    match web.moduleAt(ModuleUrl(m))
    case None => []
    case Some(doc) => doc.classes
  }

  /** One `parse_class_page` call. */
  function ClassTrace(web: Web, cwd: string, m: string, c: string): Trace {
    var o := ClassPageOutcome(m, c, web.classAt(ClassUrl(m, c)), cwd, web.downloadOk);
    Trace(o.entries, o.pages, [], o.complete)
  }

  /** The loop over the classes of a module. */
  function ClassesTrace(web: Web, cwd: string, m: string, cs: seq<string>): (t: Trace)
    ensures t.missing == []
  {
    if cs == [] then Trace([], [], [], true)
    else Then(ClassesTrace(web, cwd, m, cs[..|cs| - 1]), ClassTrace(web, cwd, m, cs[|cs| - 1]))
  }

  /** One turn of the loop over the modules. */
  function ModuleTrace(web: Web, cwd: string, m: string): Trace {
    Then(ModulePageTrace(web, cwd, m), ClassesTrace(web, cwd, m, ClassesOf(web, m)))
  }

  /** The loop over the module links of the start page. */
  function ModulesTrace(web: Web, cwd: string, links: seq<string>): Trace {
    if links == [] then Trace([], [], [], true)
    else Then(ModulesTrace(web, cwd, links[..|links| - 1]), ModuleTrace(web, cwd, Slug(links[|links| - 1])))
  }

  /** Everything `main` does before the pass over the missing modules. */
  function CrawlTrace(web: Web, cwd: string): Trace {
    Then(RootTrace(web), ModulesTrace(web, cwd, RootLinks(web)))
  }

  /** The documents directory after the run, starting from `files`. */
  function FinalFiles(files: map<string, Page>, web: Web, cwd: string): map<string, Page> {
    var t := CrawlTrace(web, cwd);
    var saved := SaveAll(files, t.pages);
    if t.ok && RootFile in saved then
      match UnwrapAll(saved[RootFile].body, t.missing)
      case None => saved
      case Some(b) => saved[RootFile := Page(saved[RootFile].title, b)]
    else saved
  }

  /** Whether the run ends normally, starting from the documents directory `files`:
      the pass at the end reads the start page back from that directory. */
  predicate Completes(files: map<string, Page>, web: Web, cwd: string) {
    var t := CrawlTrace(web, cwd);
    var saved := SaveAll(files, t.pages);
    t.ok && RootFile in saved && UnwrapAll(saved[RootFile].body, t.missing).Some?
  }

  // ---------------------------------------------------------------------------
  // Composing traces.

  /** Carrying out two parts one after the other is carrying out their composition. */
  lemma ThenApplies(rows: seq<Row>, files: map<string, Page>, t: Trace, u: Trace)
    requires t.ok
    ensures InsertAll(InsertAll(rows, t.entries), u.entries) == InsertAll(rows, Then(t, u).entries)
    ensures SaveAll(SaveAll(files, t.pages), u.pages) == SaveAll(files, Then(t, u).pages)
  {
    InsertAllConcat(rows, t.entries, u.entries);
    SaveAllConcat(files, t.pages, u.pages);
  }

  lemma ThenNothing(t: Trace)
    ensures Then(t, Trace([], [], [], true)) == t
  {
    assert t.entries + [] == t.entries && t.pages + [] == t.pages && t.missing + [] == t.missing;
  }

  /** The loop over the classes gets to its end exactly when every class page does. */
  lemma {:induction false} ClassesCompleteIffEach(web: Web, cwd: string, m: string, cs: seq<string>)
    ensures ClassesTrace(web, cwd, m, cs).ok <==> forall k :: 0 <= k < |cs| ==> ClassTrace(web, cwd, m, cs[k]).ok
    decreases |cs|
  {
    if cs != [] {
      var init, last := cs[..|cs| - 1], cs[|cs| - 1];
      ClassesCompleteIffEach(web, cwd, m, init);
      var t, u := ClassesTrace(web, cwd, m, init), ClassTrace(web, cwd, m, last);
      assert ClassesTrace(web, cwd, m, cs).ok == (t.ok && u.ok);
      if t.ok && u.ok {
        forall k | 0 <= k < |cs| ensures ClassTrace(web, cwd, m, cs[k]).ok {
          if k < |init| {
            assert init[k] == cs[k];
          }
        }
      } else if !t.ok {
        var k :| 0 <= k < |init| && !ClassTrace(web, cwd, m, init[k]).ok;
        assert init[k] == cs[k];
      }
    }
  }

  /** After an exception the remaining classes change nothing. */
  lemma {:induction false} ClassesStop(web: Web, cwd: string, m: string, cs: seq<string>, i: nat)
    requires i <= |cs| && !ClassesTrace(web, cwd, m, cs[..i]).ok
    ensures ClassesTrace(web, cwd, m, cs) == ClassesTrace(web, cwd, m, cs[..i])
    decreases |cs| - i
  {
    if i < |cs| {
      assert cs[..i + 1][..i] == cs[..i];
      ClassesStop(web, cwd, m, cs, i + 1);
    } else {
      assert cs[..i] == cs;
    }
  }

  /** After an exception the remaining modules change nothing. */
  lemma {:induction false} ModulesStop(web: Web, cwd: string, links: seq<string>, i: nat)
    requires i <= |links| && !ModulesTrace(web, cwd, links[..i]).ok
    ensures ModulesTrace(web, cwd, links) == ModulesTrace(web, cwd, links[..i])
    decreases |links| - i
  {
    if i < |links| {
      assert links[..i + 1][..i] == links[..i];
      ModulesStop(web, cwd, links, i + 1);
    } else {
      assert links[..i] == links;
    }
  }

  lemma {:induction false} UnwrapAllStops(ns: seq<Node>, slugs: seq<string>, i: nat)
    requires i <= |slugs| && UnwrapAll(ns, slugs[..i]).None?
    ensures UnwrapAll(ns, slugs).None?
    decreases |slugs| - i
  {
    if i < |slugs| {
      assert slugs[..i + 1][..i] == slugs[..i];
      UnwrapAllStops(ns, slugs, i + 1);
    } else {
      assert slugs[..i] == slugs;
    }
  }

  lemma ModulesStep(web: Web, cwd: string, links: seq<string>, i: nat)
    requires i < |links|
    ensures ModulesTrace(web, cwd, links[..i + 1])
         == Then(ModulesTrace(web, cwd, links[..i]), ModuleTrace(web, cwd, Slug(links[i])))
  {
    assert links[..i + 1][..i] == links[..i];
  }

  lemma ClassesStep(web: Web, cwd: string, m: string, cs: seq<string>, i: nat)
    requires i < |cs|
    ensures ClassesTrace(web, cwd, m, cs[..i + 1])
         == Then(ClassesTrace(web, cwd, m, cs[..i]), ClassTrace(web, cwd, m, cs[i]))
  {
    assert cs[..i + 1][..i] == cs[..i];
  }

  /** One more part carried out after `t`, as the invariant of a loop sees it. */
  lemma Advance(rows: seq<Row>, files: map<string, Page>, t: Trace, u: Trace,
                rows0: seq<Row>, files0: map<string, Page>, rows1: seq<Row>, files1: map<string, Page>)
    requires t.ok && rows0 == InsertAll(rows, t.entries) && files0 == SaveAll(files, t.pages)
    requires rows1 == InsertAll(rows0, u.entries) && files1 == SaveAll(files0, u.pages)
    ensures rows1 == InsertAll(rows, Then(t, u).entries) && files1 == SaveAll(files, Then(t, u).pages)
    ensures Then(t, u).missing == t.missing + u.missing && Then(t, u).ok == u.ok
  {
    ThenApplies(rows, files, t, u);
  }

  lemma SaveOne(files: map<string, Page>, s: Saved)
    ensures SaveAll(files, [s]) == files[s.file := s.page]
  {
    assert [s][..0] == [];
  }

  lemma InsertOne(rows: seq<Row>, e: Entry)
    ensures InsertAll(rows, [e]) == InsertOrIgnore(rows, e)
  {
    assert [e][..0] == [];
  }

  // ---------------------------------------------------------------------------
  // The run as the source performs it.

  /** `parse_main_page`: the start page is rewritten and saved; its module links are
      returned. */
  method ParseMainPage(web: Web, docs: Documents) returns (links: Option<seq<string>>)
    modifies docs
    ensures links == if web.root.Some? then Some(web.root.value.moduleLinks) else None
    ensures docs.files == SaveAll(old(docs.files), RootTrace(web).pages)
  {
    if web.root.None? {
      return None;
    }
    var r := web.root.value;
    docs.Save("index.html", r.title, RewriteRoot(r.body));
    SaveOne(old(docs.files), Saved(RootFile, Page(r.title, RewriteRoot(r.body))));
    return Some(r.moduleLinks);
  }

  /** `parse_module_index_page(module)`: the page, or nothing when it is not found. */
  method ParseModuleIndexPage(web: Web, cwd: string, m: string, store: Store, docs: Documents)
    returns (doc: Option<ModuleDoc>)
    requires store.Valid()
    modifies store, docs
    ensures store.Valid()
    ensures doc == web.moduleAt(ModuleUrl(m))
    ensures var t := ModulePageTrace(web, cwd, m);
      store.rows == InsertAll(old(store.rows), t.entries) && docs.files == SaveAll(old(docs.files), t.pages)
  {
    var url := "https://doc-snapshots.qt.io/qtforpython/PySide2/" + m + "/index.html";
    doc := web.moduleAt(url);
    match doc
    case None =>
    case Some(page) =>
      var body := CleanLinks(page.body, url, cwd);
      var file := m + "-index.html";
      docs.Save(file, page.title, body);
      store.Insert(Entry(m, Module, file));
      SaveOne(old(docs.files), Saved(file, Page(page.title, body)));
      InsertOne(old(store.rows), Entry(m, Module, file));
  }

  /** `for index, function in enumerate(functions, 1): parse_class_page(...)` */
  method IndexClasses(web: Web, cwd: string, m: string, cs: seq<string>, store: Store, docs: Documents)
    returns (ok: bool)
    requires store.Valid()
    modifies store, docs
    ensures store.Valid()
    ensures var t := ClassesTrace(web, cwd, m, cs);
      store.rows == InsertAll(old(store.rows), t.entries) && docs.files == SaveAll(old(docs.files), t.pages)
      && ok == t.ok
  {
    ghost var t := Trace([], [], [], true);
    var i := 0;
    while i < |cs|
      invariant 0 <= i <= |cs| && store.Valid()
      invariant t == ClassesTrace(web, cwd, m, cs[..i]) && t.ok
      invariant store.rows == InsertAll(old(store.rows), t.entries)
      invariant docs.files == SaveAll(old(docs.files), t.pages)
    {
      ghost var step := ClassTrace(web, cwd, m, cs[i]);
      ghost var rows0, files0 := store.rows, docs.files;
      var done := ParseClassPage(store, docs, m, cs[i], web.classAt, cwd, web.downloadOk);
      ClassesStep(web, cwd, m, cs, i);
      Advance(old(store.rows), old(docs.files), t, step, rows0, files0, store.rows, docs.files);
      t := Then(t, step);
      if !done {
        ClassesStop(web, cwd, m, cs, i + 1);
        return false;
      }
      i := i + 1;
    }
    assert cs[..i] == cs;
    return true;
  }

  /** The pass at the end of `main`: for each missing module, the first start-page
      link mentioning it is unwrapped, and the start page is saved again. */
  method UnwrapMissing(docs: Documents, slugs: seq<string>) returns (ok: bool)
    requires RootFile in docs.files
    modifies docs
    ensures var page := old(docs.files)[RootFile];
      match UnwrapAll(page.body, slugs)
      case None => !ok && docs.files == old(docs.files)
      case Some(b) => ok && docs.files == old(docs.files)[RootFile := Page(page.title, b)]
  {
    var page := docs.files["index.html"];
    var body := page.body;
    var i := 0;
    while i < |slugs|
      invariant 0 <= i <= |slugs|
      invariant UnwrapAll(page.body, slugs[..i]) == Some(body)
    {
      var r := UnwrapFirstLink(body, slugs[i]);
      assert slugs[..i + 1][..i] == slugs[..i];
      if r.None? {
        UnwrapAllStops(page.body, slugs, i + 1);
        return false;
      }
      body := r.value;
      i := i + 1;
    }
    assert slugs[..i] == slugs;
    docs.Save("index.html", page.title, body);
    return true;
  }

  /** One turn of the module loop of `main`. */
  method IndexModule(web: Web, cwd: string, m: string, store: Store, docs: Documents)
    returns (ok: bool, found: bool)
    requires store.Valid()
    modifies store, docs
    ensures store.Valid()
    ensures var t := ModuleTrace(web, cwd, m);
      store.rows == InsertAll(old(store.rows), t.entries) && docs.files == SaveAll(old(docs.files), t.pages)
      && ok == t.ok && t.missing == (if found then [] else [m])
  {
    ghost var page := ModulePageTrace(web, cwd, m);
    var doc := ParseModuleIndexPage(web, cwd, m, store, docs);
    if doc.None? {
      ThenNothing(page);
      return true, false;
    }
    ghost var rows1, files1 := store.rows, docs.files;
    ok := IndexClasses(web, cwd, m, doc.value.classes, store, docs);
    ThenApplies(old(store.rows), old(docs.files), page, ClassesTrace(web, cwd, m, doc.value.classes));
    found := true;
  }

  /** The loop over the module links of the start page: each link text becomes a
      slug, and the slugs of modules that are not found are collected. */
  method IndexModules(web: Web, cwd: string, links: seq<string>, store: Store, docs: Documents)
    returns (ok: bool, missing: seq<string>)
    requires store.Valid()
    modifies store, docs
    ensures store.Valid()
    ensures var t := ModulesTrace(web, cwd, links);
      store.rows == InsertAll(old(store.rows), t.entries) && docs.files == SaveAll(old(docs.files), t.pages)
      && ok == t.ok && missing == t.missing
  {
    missing := [];
    ghost var t := Trace([], [], [], true);
    var i := 0;
    while i < |links|
      invariant 0 <= i <= |links| && store.Valid()
      invariant t == ModulesTrace(web, cwd, links[..i]) && t.ok
      invariant store.rows == InsertAll(old(store.rows), t.entries)
      invariant docs.files == SaveAll(old(docs.files), t.pages)
      invariant missing == t.missing
    {
      var slug := Slug(links[i]);
      ghost var step := ModuleTrace(web, cwd, slug);
      ghost var rows0, files0 := store.rows, docs.files;
      var done, found := IndexModule(web, cwd, slug, store, docs);
      ModulesStep(web, cwd, links, i);
      Advance(old(store.rows), old(docs.files), t, step, rows0, files0, store.rows, docs.files);
      t := Then(t, step);
      if !done {
        ModulesStop(web, cwd, links, i + 1);
        assert missing + [] == missing;
        return false, missing;
      }
      if !found {
        missing := missing + [slug];
      } else {
        assert missing + [] == missing;
      }
      i := i + 1;
    }
    assert links[..i] == links;
    return true, missing;
  }

  /** The start page followed by the modules is the whole crawl. */
  lemma CrawlIsRootThenModules(web: Web, cwd: string, files: map<string, Page>)
    requires web.root.Some?
    ensures var t, u := CrawlTrace(web, cwd), ModulesTrace(web, cwd, RootLinks(web));
      t.entries == u.entries && t.missing == u.missing && t.ok == u.ok
      && SaveAll(SaveAll(files, RootTrace(web).pages), u.pages) == SaveAll(files, t.pages)
      && RootFile in SaveAll(SaveAll(files, RootTrace(web).pages), u.pages)
  {
    var u := ModulesTrace(web, cwd, RootLinks(web));
    ThenApplies([], files, RootTrace(web), u);
    assert [] + u.entries == u.entries && [] + u.missing == u.missing;
    SaveOne(files, RootTrace(web).pages[0]);
  }

  /** `main`: the index is recreated, the stylesheet fetched, the start page saved,
      each module indexed, and the start page's links to missing modules unwrapped.
      Files already in the documents directory stay unless overwritten.
      `stylesheetReadable` tells whether `download_css` finds `main.css` on disk after
      its download (the download succeeded, or an earlier run left the file); when it
      does not, opening the file raises and the run ends with the table empty. */
  method Run(web: Web, cwd: string, stylesheetReadable: bool, store: Store, docs: Documents)
    returns (ok: bool, missing: seq<string>)
    modifies store, docs
    ensures store.Valid()
    ensures !stylesheetReadable ==> !ok && store.rows == [] && docs.files == old(docs.files)
    ensures stylesheetReadable ==>
      store.rows == InsertAll([], CrawlTrace(web, cwd).entries)
      && docs.files == FinalFiles(old(docs.files), web, cwd)
      && ok == Completes(old(docs.files), web, cwd)
      && (ok ==> missing == CrawlTrace(web, cwd).missing == NotFoundSlugs(web, RootLinks(web)))
  {
    store.Reset();
    if !stylesheetReadable {
      return false, [];
    }
    var links := ParseMainPage(web, docs);
    if links.None? {
      return false, [];
    }
    ok, missing := IndexModules(web, cwd, links.value, store, docs);
    CrawlIsRootThenModules(web, cwd, old(docs.files));
    if ok {
      MissingAreTheNotFound(web, cwd, links.value);
      ok := UnwrapMissing(docs, missing);
    }
  }

  // ---------------------------------------------------------------------------
  // What the run promises.

  /** A module whose index page is not found contributes no entry and no page, and
      only its slug to the list of missing modules. */
  lemma MissingModuleLeavesNoTrace(web: Web, cwd: string, m: string)
    requires web.moduleAt(ModuleUrl(m)).None?
    ensures ModuleTrace(web, cwd, m) == Trace([], [], [m], true)
  {
    ThenNothing(ModulePageTrace(web, cwd, m));
  }

  /** A module whose index page is found is saved under its file and indexed first
      as a `Module` at that file, and is not missing. */
  lemma FoundModuleIsIndexed(web: Web, cwd: string, m: string)
    requires web.moduleAt(ModuleUrl(m)).Some?
    ensures var t := ModuleTrace(web, cwd, m);
      |t.entries| >= 1 && t.entries[0] == Entry(m, Module, ModuleFile(m))
      && |t.pages| >= 1 && t.pages[0].file == ModuleFile(m)
      && t.missing == []
  {
  }

  /** Every module on the list of missing ones was not found. */
  ghost predicate MissingWereNotFound(web: Web, t: Trace) {
    forall k :: 0 <= k < |t.missing| ==> web.moduleAt(ModuleUrl(t.missing[k])).None?
  }

  /** Every `Module` entry names a module whose page was found and points at the
      file it was saved as. */
  ghost predicate ModuleEntriesWereFound(web: Web, t: Trace) {
    forall k :: 0 <= k < |t.entries| && t.entries[k].kind == Module ==>
      web.moduleAt(ModuleUrl(t.entries[k].name)).Some? && t.entries[k].path == ModuleFile(t.entries[k].name)
  }

  lemma ThenKeepsBookkeeping(web: Web, t: Trace, u: Trace)
    requires MissingWereNotFound(web, t) && MissingWereNotFound(web, u)
    requires ModuleEntriesWereFound(web, t) && ModuleEntriesWereFound(web, u)
    ensures MissingWereNotFound(web, Then(t, u)) && ModuleEntriesWereFound(web, Then(t, u))
  {
    if t.ok {
      var r := Then(t, u);
      forall k | 0 <= k < |r.missing| ensures web.moduleAt(ModuleUrl(r.missing[k])).None? {
        if k >= |t.missing| { assert r.missing[k] == u.missing[k - |t.missing|]; }
        else { assert r.missing[k] == t.missing[k]; }
      }
      forall k | 0 <= k < |r.entries| && r.entries[k].kind == Module
        ensures web.moduleAt(ModuleUrl(r.entries[k].name)).Some? && r.entries[k].path == ModuleFile(r.entries[k].name)
      {
        if k >= |t.entries| { assert r.entries[k] == u.entries[k - |t.entries|]; }
        else { assert r.entries[k] == t.entries[k]; }
      }
    }
  }

  ghost predicate NoModuleEntry(es: seq<Entry>) {
    forall k :: 0 <= k < |es| ==> es[k].kind != Module
  }

  lemma NoModuleEntryConcat(a: seq<Entry>, b: seq<Entry>)
    requires NoModuleEntry(a) && NoModuleEntry(b)
    ensures NoModuleEntry(a + b)
  {
    forall k | 0 <= k < |a + b| ensures (a + b)[k].kind != Module {
      if k >= |a| { assert (a + b)[k] == b[k - |a|]; }
    }
  }

  /** A class page registers no `Module` entry. */
  lemma {:induction false} ClassesRegisterNoModule(web: Web, cwd: string, m: string, cs: seq<string>)
    ensures NoModuleEntry(ClassesTrace(web, cwd, m, cs).entries)
    decreases |cs|
  {
    if cs != [] {
      var c := cs[|cs| - 1];
      ClassesRegisterNoModule(web, cwd, m, cs[..|cs| - 1]);
      var o := ClassPageOutcome(m, c, web.classAt(ClassUrl(m, c)), cwd, web.downloadOk);
      ClassPageEntries(m, c, web.classAt(ClassUrl(m, c)), cwd, web.downloadOk);
      assert NoModuleEntry(o.entries) by {
        forall k | 0 <= k < |o.entries| ensures o.entries[k].kind != Module {
          if k == 0 {
            assert o.entries[0] == ClassEntry(m, c);
          }
        }
      }
      var t, u := ClassesTrace(web, cwd, m, cs[..|cs| - 1]), ClassTrace(web, cwd, m, c);
      assert u.entries == o.entries;
      if t.ok {
        NoModuleEntryConcat(t.entries, u.entries);
      }
    }
  }

  lemma ModuleKeepsBookkeeping(web: Web, cwd: string, m: string)
    ensures MissingWereNotFound(web, ModuleTrace(web, cwd, m))
    ensures ModuleEntriesWereFound(web, ModuleTrace(web, cwd, m))
  {
    ClassesRegisterNoModule(web, cwd, m, ClassesOf(web, m));
    ThenKeepsBookkeeping(web, ModulePageTrace(web, cwd, m), ClassesTrace(web, cwd, m, ClassesOf(web, m)));
  }

  /** Over the whole crawl: the missing modules are exactly ones that were not
      found, and every `Module` entry is a module that was found, at its file. */
  lemma {:induction false} ModulesKeepBookkeeping(web: Web, cwd: string, links: seq<string>)
    ensures MissingWereNotFound(web, ModulesTrace(web, cwd, links))
    ensures ModuleEntriesWereFound(web, ModulesTrace(web, cwd, links))
    decreases |links|
  {
    if links != [] {
      ModulesKeepBookkeeping(web, cwd, links[..|links| - 1]);
      ModuleKeepsBookkeeping(web, cwd, Slug(links[|links| - 1]));
      ThenKeepsBookkeeping(web, ModulesTrace(web, cwd, links[..|links| - 1]), ModuleTrace(web, cwd, Slug(links[|links| - 1])));
    }
  }

  lemma CrawlKeepsBookkeeping(web: Web, cwd: string)
    ensures MissingWereNotFound(web, CrawlTrace(web, cwd))
    ensures ModuleEntriesWereFound(web, CrawlTrace(web, cwd))
  {
    ModulesKeepBookkeeping(web, cwd, RootLinks(web));
    ThenKeepsBookkeeping(web, RootTrace(web), ModulesTrace(web, cwd, RootLinks(web)));
  }

  /** Reference definition: the slugs of the linked modules whose index page is not
      found, in link order. */
  function NotFoundSlugs(web: Web, links: seq<string>): seq<string> {
    if links == [] then []
    else
      var m := Slug(links[|links| - 1]);
      NotFoundSlugs(web, links[..|links| - 1]) + (if web.moduleAt(ModuleUrl(m)).None? then [m] else [])
  }

  /** A module turn adds its slug to the missing ones exactly when its page is not
      found. */
  lemma ModuleTraceMissing(web: Web, cwd: string, m: string)
    ensures ModuleTrace(web, cwd, m).missing == if web.moduleAt(ModuleUrl(m)).None? then [m] else []
  {
    if web.moduleAt(ModuleUrl(m)).None? {
      MissingModuleLeavesNoTrace(web, cwd, m);
    }
  }

  /** When the crawl gets through all modules, the missing modules are exactly the
      linked modules that were not found, in link order. */
  lemma {:induction false} MissingAreTheNotFound(web: Web, cwd: string, links: seq<string>)
    requires ModulesTrace(web, cwd, links).ok
    ensures ModulesTrace(web, cwd, links).missing == NotFoundSlugs(web, links)
    decreases |links|
  {
    if links != [] {
      var init := links[..|links| - 1];
      var m := Slug(links[|links| - 1]);
      MissingAreTheNotFound(web, cwd, init);
      ModuleTraceMissing(web, cwd, m);
    }
  }

  /** Every linked module that was not found is among the not-found slugs, and each
      of these is the slug of a linked module that was not found. */
  lemma {:induction false} NotFoundSlugsMembers(web: Web, links: seq<string>)
    ensures forall k :: 0 <= k < |links| && web.moduleAt(ModuleUrl(Slug(links[k]))).None? ==>
      Slug(links[k]) in NotFoundSlugs(web, links)
    ensures forall s :: s in NotFoundSlugs(web, links) ==>
      web.moduleAt(ModuleUrl(s)).None? && exists k :: 0 <= k < |links| && Slug(links[k]) == s
    decreases |links|
  {
    if links != [] {
      var init := links[..|links| - 1];
      NotFoundSlugsMembers(web, init);
      assert forall k :: 0 <= k < |init| ==> init[k] == links[k];
    }
  }
}
