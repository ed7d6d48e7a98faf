# pyside-docset-generator, modelled in Dafny

The generator builds a Dash docset of the Qt for Python (PySide2) documentation. It
crawls the documentation site:

- the start page, saved as `index.html` with its module links rewritten to local files;
- every module index page it links to, saved as `<module>-index.html` and indexed as a `Module`;
- every class page listed in each module, saved as `<class>.html`.

A class page is indexed as a `Class`, `Event`, `Interface` or `Enum`, with one `Method` entry per method in its synopsis. Before a page is saved:

- its links that leave the documentation are unwrapped;
- links that stay inside it are flattened to a file name;
- on class pages, the anchors of the "Inherited by:" links are cut;
- on class pages, images are downloaded and pointed at the local copy.

The search index is the SQLite table `searchIndex(id, name, type, path)`, which has a unique index on `(name, type, path)`. Modules whose index page is not found are skipped. When the crawl ends, the start-page link to each of them is unwrapped. The stylesheet is downloaded, stripped of its `font-family` lines, and given one fixed `body` rule.

The model covers the crawl in `main.py`: the page parsers, `clean_links`, `insert_entry`, `save_page`, the stylesheet rewrite and `main`. What it leaves out is listed under "## Left out". The sources of change are parameters:

- **The site** is an oracle `Web`. It gives the start page, or nothing. It gives each module and class page by URL, or nothing (HTTP 404). It answers whether each image download succeeds (`downloadOk`). Whether `main.css` can be read after its download is a flag, `stylesheetReadable`.
- **The working directory** that `os.path.abspath` reads is a parameter, `cwd`.
- **HTML.** A page's HTML is a sequence of `Node`s (`Html`): text, elements with a tag name, an optional `href` and children, and images with an optional `src`. A missing attribute that the source reads with `tag["href"]` or `image["src"]` raises `KeyError`. That ends the run, and the model represents it as `None`, `HrefMissing` or an incomplete outcome.
- **The index** is a class `IndexStore.Store` holding a sequence of rows. Its invariant: ids count up from 1, and no two rows share a triple.
- **The output directory** is a class `Pages.Documents` holding a map from file name to page (title and body).

Each step that loops or changes state in the source is a method here: `clean_links`, the inheritance loop, the image loop, the method loop, the class loop, the module loop, the post-pass and `main`. Each method is proved equal to a pure specification function: a left fold for the loops, or a head-first search for `find`. The properties the source promises are lemmas about those functions:

- **Index.** `INSERT OR IGNORE` keeps the table well formed and adds exactly the new triple. It is idempotent, and the row count is the number of distinct triples.
- **Links.** `clean_links` flattens an in-scope link in place, to the last `/`-segment of its `href`. It splices the children of an out-of-scope link in at the link's position. It leaves every other node as it is, keeps the text, and is idempotent.
- **Inheritance.** The anchor cut yields the prefix before the first `#`. It only cuts, keeps the text, and is idempotent.
- **Images.** Localisation fails exactly when an image has no `src`. It repoints downloaded images to a name with no `/`, removes the others, and leaves everything else untouched.
- **Class entries.** A class page registers exactly one class entry, typed by name suffix in the order Event, Interface, Enum, with all other entries of kind `Method` pointing into the class page.
- **Stylesheet.** The filter keeps exactly the newline-terminated lines without `font-family:`, in order, followed by the unterminated tail. The output ends with the fixed rule.
- **Missing modules.** A module that is not found leaves no entry and no page. When the crawl gets through every module, the list of missing modules is exactly the linked modules that were not found, in link order. Every `Module` entry in the index names a module that was found, at its file.
- **Post-pass.** It removes exactly the first link mentioning each missing module from the start page's links, keeps the others in order, and keeps the text.

## Model

| member | source | states |
|---|---|---|
| Strings.Split | main.py:63 | `s.split(c)` on a one-character separator: at least one field, no field holds `c`, a single field exactly when `c` does not occur |
| Strings.ReplaceAll | main.py:147-150 | definition of `str.replace`: occurrences found from the left, replaced, scanning on after each; its properties are `ReplaceSkipsPrefix` and `ReplaceCharByNothing` |
| Strings.FirstFieldIsPrefixBeforeSeparator | main.py:209 | `s.split(c)[0]` is the longest prefix of `s` without `c`: a prefix, `c`-free, and followed by `c` when shorter than `s` |
| Strings.FirstFieldIdempotent | main.py:209 | cutting at the first `c` a second time changes nothing |
| Strings.LastFieldIsSuffixAfterSeparator | main.py:63 | `s.split(c)[-1]` is the longest suffix of `s` without `c`: a suffix, `c`-free, and preceded by `c` when shorter than `s` |
| Strings.JoinSplit | main.py:63 | joining the fields of `s.split(c)` with `c` gives `s` back |
| Strings.SplitJoin | main.py:63 | splitting a join of `c`-free fields gives the fields back |
| Strings.ReplaceCharByNothing | main.py:277 | `s.replace(' ', '')` is `s` with every space deleted, and no space remains |
| Strings.ReplaceSkipsPrefix | main.py:150 | a replacement cannot start inside a prefix that lacks the pattern's first character |
| Paths.Dirname | main.py:62 | definition of `os.path.dirname`: the path up to its last '/', trailing slashes stripped unless only slashes remain |
| Paths.JoinPath | main.py:62 | definition of `os.path.join` for two parts: an absolute second part wins, otherwise one '/' between them |
| Paths.NormPath | main.py:62 | definition of `os.path.normpath`: leading slashes as posixpath keeps them, the segment loop, "." for an empty result; proved idempotent in `NormPathIdempotent` |
| Paths.AbsPath | main.py:62 | definition of `os.path.abspath` in the working directory `cwd`: a relative path is joined to `cwd`, then normalised |
| Paths.NormSegmentsAreNormal | main.py:62 | the `normpath` segment loop leaves no empty or "." segment, and any ".." only in a leading run, none in a rooted path |
| Paths.NormPathIdempotent | main.py:62 | `normpath` of a normalised path changes nothing |
| IndexStore.InsertOrIgnore | main.py:49-54 | `INSERT OR IGNORE`: a triple present leaves the table as it is; a new one becomes the next row with the next id; the table stays well formed and holds exactly one more triple |
| IndexStore.Store.Reset | main.py:34-46 | dropping and recreating the table leaves it empty and well formed |
| IndexStore.Store.Insert | main.py:49-54 | `insert_entry` keeps the table well formed and performs `INSERT OR IGNORE` on it |
| IndexStore.InsertIdempotent | main.py:53 | inserting the same triple twice is inserting it once |
| IndexStore.RowCountIsDistinctEntries | main.py:45-46 | in a well-formed table the number of rows is the number of distinct `(name, type, path)` triples |
| IndexStore.InsertAllContents | main.py:53 | a sequence of inserts keeps the table well formed and adds exactly the triples inserted |
| IndexStore.InsertAllConcat | main.py:53 | inserting two sequences one after the other is inserting their concatenation |
| Pages.SaveAll | main.py:83-92 | after a sequence of `save_page` calls every saved file exists, no file disappears, and no file appears that was not saved |
| Pages.SaveAllContents | main.py:83-92 | after a sequence of saves each saved file holds the page of the last save of that name, and every other file keeps its old page |
| Pages.SaveAllConcat | main.py:91-92 | saving two sequences one after the other is saving their concatenation |
| Pages.Documents.Save | main.py:83-92 | `save_page` writes the file, overwriting any earlier file of that name, and nothing else |
| LinkRewriter.MatchesParentPattern | main.py:61 | definition of the `^../` search: two characters other than a newline, then '/' |
| LinkRewriter.Selected | main.py:61 | definition of what `find_all(["a", "area"], href=...)` selects: an `a` or `area` element whose `href` matches the pattern |
| LinkRewriter.Resolve | main.py:62 | definition of `os.path.abspath("%s/%s" % (os.path.dirname(url), href))` |
| LinkRewriter.InScope | main.py:62 | definition of the scope test: the resolved path contains "PySide2" |
| LinkRewriter.CleanFragment | main.py:57-66 | definition of the fragment after `clean_links`, node by node in document order; its properties are the lemmas below |
| LinkRewriter.CleanNode | main.py:61-66 | definition of one node after `clean_links`: a flattened link, the cleaned children of an unwrapped link, or the node with cleaned children |
| LinkRewriter.CleanLinks | main.py:57-66 | the loop over the selected `a`/`area` tags computes the cleaned fragment for the page's scope test |
| LinkRewriter.InScopeLinkIsFlattened | main.py:61-63 | a selected link in scope stays at its position with cleaned children, and its `href` becomes the last `/`-segment of the original, which has no `/` and ends the original |
| LinkRewriter.OutOfScopeLinkIsUnwrapped | main.py:61-66 | a selected link out of scope is replaced, at its position, by its cleaned children in order |
| LinkRewriter.UnselectedNodeStays | main.py:61 | a node that is not a selected link stays at its position, only its children cleaned |
| LinkRewriter.CleanFragmentConcat | main.py:61 | each node is rewritten independently of the others: cleaning a concatenation concatenates the cleaned parts |
| LinkRewriter.CleanKeepsText | main.py:57-66 | the visible text of the fragment is unchanged |
| LinkRewriter.CleanLeavesNoneSelected | main.py:61-66 | no selected link remains after cleaning |
| LinkRewriter.CleanFixesNoneSelected | main.py:61 | a fragment without selected links is left exactly as it is |
| LinkRewriter.CleanIdempotent | main.py:57-66 | cleaning a cleaned fragment again changes nothing |
| Inheritance.StripInheritance | main.py:203-209 | definition of the step: pre-order search for the marker, then the sibling rewrite inside its parent; no marker, rewritten, or a missing `href` |
| Inheritance.StripAnchors | main.py:203-209 | definition of the body after the step, or nothing when a sibling link has no `href` |
| Inheritance.StripSiblingLinks | main.py:206-209 | the loop over the following siblings computes the sibling rewrite, or fails on a link without `href` |
| Inheritance.StripInheritanceLinks | main.py:203-209 | the marker search and the sibling loop compute the inheritance rewrite of the body |
| Inheritance.StripSiblingsStops | main.py:208-209 | once a sibling link without `href` is met the loop fails, whatever follows |
| Inheritance.StripSiblingsPointwise | main.py:208-209 | the loop fails exactly when some `a` sibling has no `href`; otherwise each sibling is rewritten on its own, at its position |
| Inheritance.StrippedHref | main.py:209 | the new `href` is a prefix of the old one, has no `#`, is followed by `#` where it is shorter, and cutting again changes nothing |
| Inheritance.StripInheritanceOnlyCuts | main.py:203-209 | the rewrite only cuts `href`s: same tree shape, same text, same tags |
| Inheritance.CutKeepsText | main.py:203-209 | cutting `href`s keeps the visible text |
| Inheritance.NoMarkerIffAbsent | main.py:203-205 | the search finds no marker exactly when no node at any depth is a `strong` whose text is "Inherited by:" |
| Inheritance.NoMarkerLeavesBody | main.py:203-205 | a body in which no node at any depth is the marker is left as it is |
| Inheritance.StripSiblingsIdempotent | main.py:208-209 | running the sibling loop again changes nothing |
| Inheritance.StripInheritanceIdempotent | main.py:203-209 | running the whole step again finds the same marker and changes nothing |
| Images.ImageFileNameIsLocal | main.py:219-220 | the local name has no `/` and ends the source with every "../../" removed |
| Images.LocalizeFragment | main.py:215-229 | definition of the fragment after the image loop: each image repointed or removed, or nothing when one has no `src` |
| Images.LocalizeImages | main.py:215-229 | the loop over the images computes the localised fragment, or fails on an image without `src` |
| Images.DownloadedImageIsRepointed | main.py:223-227 | a downloaded image stays at its position with `src` set to the basename of its cleaned source |
| Images.FailedImageIsRemoved | main.py:228-229 | an image whose download fails is removed, the rest in place |
| Images.LocalizeStops | main.py:218-219 | once an image without `src` is met the loop fails |
| Images.LocalizeConcat | main.py:218 | each image is handled on its own: localising a concatenation concatenates the localised parts |
| Images.LocalizeFailsIffSourceMissing | main.py:218-219 | localisation fails exactly when some image lacks a `src` |
| Images.LocalizedImagesAreLocal | main.py:215-229 | after localisation every image's `src` is a name without `/` |
| Images.LocalizeTouchesOnlyImages | main.py:215-229 | apart from images, the fragment is unchanged |
| Images.LocalizeKeepsText | main.py:215-229 | the visible text is unchanged |
| ClassPage.ClassifyClass | main.py:237-244 | the entry type of a class is always one of Event, Interface, Enum, Class |
| ClassPage.ClassifyBySuffix | main.py:237-244 | the type is Event iff the name ends in "Event", Interface iff in "Interface", Enum iff in "Enum", Class iff in none |
| ClassPage.ClassifyExamples | main.py:237-244 | QKeyEvent is an Event, QAccessibleInterface an Interface, QtMsgEnum an Enum, QWidget a Class |
| ClassPage.ClassEntry | main.py:246-247 | the class entry is named `PySide2.<module>.<class>`, points at `<class>.html` and has one of the four class types |
| ClassPage.MethodEntry | main.py:259-260 | a method entry is of type Method, named after the class and the link text ("None" for no text), at `<class>.html` followed by the link's `href` |
| ClassPage.MethodEntries | main.py:254-260 | one method entry per synopsis link, in order, up to the first link without `href`; the loop completes iff every link has one |
| ClassPage.RegisterMethods | main.py:258-260 | the loop inserts exactly those entries and tells whether it completed |
| ClassPage.MethodEntriesStop | main.py:258-260 | once a link without `href` is met the remaining links change nothing |
| ClassPage.CleanMethodLinks | main.py:251-254 | definition of the synopsis links as the cleaned body holds them: a selected link flattened, or gone when out of scope |
| ClassPage.ClassBody | main.py:200-229 | definition of the class body after the inheritance cut, `clean_links` and the image loop, or nothing when one raises |
| ClassPage.ClassPageOutcome | main.py:191-260 | definition of what `parse_class_page` leaves: nothing for a page not found, otherwise the saved page and the entries; properties in `ClassPageEntries` |
| ClassPage.ClassPageEntries | main.py:231-260 | nothing is registered unless the page is saved; a saved page registers its class entry first and then only Method entries whose paths start with the class page |
| ClassPage.ClassBodyShape | main.py:200-229 | the saved body has only local images and the visible text of the fetched body |
| ClassPage.RewriteClassBody | main.py:200-229 | the inheritance cut, the link cleaning and the image loop compute the class-body rewrite, or stop where the source raises |
| ClassPage.SaveClassPage | main.py:231-260 | the page is saved as `<class>.html`, then the class entry and the method entries are inserted, as the saved-class outcome says |
| ClassPage.ParseClassPage | main.py:191-260 | `parse_class_page` saves and inserts exactly what the class-page outcome says and reports whether it returned normally |
| Css.DropFontLines | main.py:119 | definition of the `font-family` substitution as a scan over lines; characterised by `DropFontLinesKeepsOtherLines` |
| Css.CleanCss | main.py:118-126 | the new stylesheet is the filtered one followed by the fixed `body` rule |
| Css.KeptLines | main.py:119 | the kept lines are lines of the input without `font-family:`, and every such line is kept |
| Css.DropFontLinesKeepsOtherLines | main.py:119 | the lines of the filtered stylesheet are the newline-terminated lines without `font-family:`, in order, then the last unterminated part |
| Css.DropAtLineStart | main.py:119 | the filter works line by line: text ending in a newline is filtered independently of what follows |
| Css.FontLineIsDropped | main.py:119 | a newline-terminated line holding `font-family:` disappears wherever it stands |
| RootPage.RootHref | main.py:147-150 | definition of an `href` after the two replacements: a leading "PySide2/" dropped, then "/index.html" made "-index.html" |
| RootPage.RewriteRoot | main.py:146-150 | definition of the start-page body after the two replacements, node by node |
| RootPage.RewriteKeepsShape | main.py:146-150 | the start-page rewrite keeps the nodes, each rewritten at its position |
| RootPage.RemoveFirst | main.py:302-303 | removing the first matching element fails exactly when no element matches |
| RootPage.UnwrapFirst | main.py:303 | definition of `find("a", href=...).replaceWithChildren()`: the first matching `a` in document order replaced by its children, or nothing when none matches |
| RootPage.UnwrapAll | main.py:302-303 | definition of the loop over the missing modules, one unwrapping each, in order |
| RootPage.UnwrapRemovesFirstMatch | main.py:302-303 | unwrapping succeeds exactly when some link matches, and the links afterwards are the links before without the first matching one, the others in order |
| RootPage.UnwrapKeepsText | main.py:302-303 | unwrapping keeps the visible text |
| RootPage.UnwrapAllShape | main.py:301-303 | after the whole pass there is one link fewer per missing module and the same text |
| Html.StringOf | main.py:259-260 | definition of BeautifulSoup's `.string`: a text node's text, or that of an element's only child |
| Crawl.RootTrace | main.py:132-155 | definition of what `parse_main_page` does: the rewritten start page saved, or the run ended when it cannot be fetched |
| Crawl.ModulePageTrace | main.py:158-188 | definition of what `parse_module_index_page` does: only the slug as missing, or the cleaned page saved and a Module entry inserted |
| Crawl.ClassTrace | main.py:191-260 | definition of one `parse_class_page` call as a trace of the class-page outcome |
| Crawl.ClassesTrace | main.py:290-293 | definition of the loop over a module's classes, stopping at the first call that ends the run; it never records a missing module |
| Crawl.ClassesCompleteIffEach | main.py:290-293 | the loop over the classes gets to its end exactly when every class page call returns normally |
| Crawl.ModuleTrace | main.py:277-293 | definition of one turn of the module loop: the module page, then its classes |
| Crawl.CrawlTrace | main.py:274-293 | definition of everything `main` does before its final pass: the start page, then the module loop |
| Crawl.Slug | main.py:277 | the module slug is the link text with every space removed |
| Crawl.RootLinkPointsAtModuleFile | main.py:147-150 | after the rewrite a start-page link "PySide2/<module>/index.html" points at the file the module page is saved as |
| Crawl.ParseMainPage | main.py:132-155 | the rewritten start page is saved as `index.html` and its module links returned; nothing is saved when it cannot be fetched |
| Crawl.ParseModuleIndexPage | main.py:158-188 | a module page not found changes nothing; a found one is cleaned, saved as `<module>-index.html` and indexed as a Module at that file |
| Crawl.IndexClasses | main.py:290-293 | the loop over a module's classes saves and inserts what each class page does, stopping at the first one that ends the run |
| Crawl.IndexModule | main.py:277-293 | one turn of the module loop, reporting whether the module was found |
| Crawl.IndexModules | main.py:276-293 | the module loop performs the module traces in link order and collects the slugs of the modules not found |
| Crawl.UnwrapMissing | main.py:299-305 | the post-pass reads `index.html` back, unwraps one link per missing module and saves it again, or ends the run without saving |
| Crawl.Run | main.py:263-305 | when `main.css` cannot be read the run ends with the index empty and no page saved; otherwise `main` leaves the index holding exactly the crawl's entries and the directory as the crawl leaves it; when it completes, the missing modules are exactly the linked modules not found, in link order |
| Crawl.MissingModuleLeavesNoTrace | main.py:166-169 | a module whose page is not found contributes no entry, no page and only its slug to the missing list |
| Crawl.ModuleTraceMissing | main.py:278-284 | a module turn adds its slug to the missing list exactly when its page is not found |
| Crawl.MissingAreTheNotFound | main.py:276-284 | when the loop gets through every module, the missing list is exactly the slugs of the linked modules not found, in order |
| Crawl.NotFoundSlugsMembers | main.py:276-284 | every linked module not found is on the missing list, and everything on it is a linked module not found |
| Crawl.ClassesRegisterNoModule | main.py:290-293 | class pages never register a Module entry |
| Crawl.CrawlKeepsBookkeeping | main.py:276-293 | every missing slug was not found, and every Module entry names a module that was found and points at its file |

## Left out

- The network is not modelled. `do_request` and `download_file` are the `Web` oracle: a page or nothing, a download that succeeds or not. `urllib` errors other than `HTTPError` are not modelled.
- File I/O is not modelled: `os.makedirs`, the files of downloaded images and of `list_arrow.png`, and reading and writing `main.css`. `Css.CleanCss` states the stylesheet rewrite as a function on its text.
- `Crawl.Run` takes the outcome of `download_css`'s read of `main.css` as the flag `stylesheetReadable`, because the model has no file system. Whether the file is there depends on the download and on what earlier runs left. The `list_arrow.png` download never ends the run and is not modelled.
- The SQLite engine is not modelled. The table is kept in memory with the same unique key and `INSERT OR IGNORE` behaviour; SQL text and commits are not modelled.
- BeautifulSoup parsing, serialisation and selectors are not modelled: the `bodywrapper` lookup, `find(id="qt-modules")` with its two extractions, the "hide docutils container" extraction, the "pysidetoc" class list, the synopsis lookup, the external links and `title.string`. The oracle hands over the selected pieces, and a page on which one of them is missing is not modelled.
- `Crawl.ModuleDoc` takes the list of class names from the oracle rather than reading it off the cleaned module body. The class-list links are relative and never match `^../`, so cleaning does not change them.
- `ClassPage.CleanMethodLinks` applies the `clean_links` rewrite to the synopsis links on their own. The inheritance rewrite never reaches the synopsis and is not applied to them.
- The start page's two `str.replace` calls on its serialised HTML are modelled on the `href`s, the text and the image sources of the nodes. Occurrences that span the markup, or sit in other attributes, are not modelled.
- The re-saved `index.html` is modelled as its title and body. The source re-parses the whole saved document, template included, and wraps it in the template again.
- Fetched bodies are taken to hold every `img` tag as an `Img` node. An `Element` named "img" is not treated as an image.
- The start page's first replacement is applied to `href`s only. An `href="PySide2/` that stands in visible text is not rewritten.
- A link text or class name that is not a single string (`.string` is `None`) is not modelled.
- `RootPage.MentionsSlug`: the source compiles the slug as a regular expression; the model reads it as plain text, because slugs are module names without metacharacters.
- Console output is not modelled: the progress lines, the banner and `save_page`'s "already exists" warning.
