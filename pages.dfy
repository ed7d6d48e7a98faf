/** The output `Documents` directory as a map from file name to page. `save_page`
    (main.py:83-92) writes `HTML_TEMPLATE % (title, html)`; as the template is fixed,
    a page is kept as its title and the body fragment put into it. */
module Pages {
  import opened Html

  datatype Page = Page(title: string, body: seq<Node>)

  /** One call of `save_page`: the file written and what it holds. */
  datatype Saved = Saved(file: string, page: Page)

  /** The directory after a sequence of `save_page` calls: a later page of the same
      name overwrites an earlier one, and no file disappears. */
  function SaveAll(files: map<string, Page>, saves: seq<Saved>): (r: map<string, Page>)
    ensures files.Keys <= r.Keys
    ensures forall k :: 0 <= k < |saves| ==> saves[k].file in r
    ensures forall f :: f in r ==> f in files || exists k :: 0 <= k < |saves| && saves[k].file == f
  {
    if saves == [] then files
    else
      var last := saves[|saves| - 1];
      var r := SaveAll(files, saves[..|saves| - 1])[last.file := last.page];
      assert forall k :: 0 <= k < |saves| - 1 ==> saves[..|saves| - 1][k] == saves[k];
      r
  }

  /** What each file holds afterwards: a saved file the page of the last save of that
      name, any other file its old page. */
  lemma {:induction false} SaveAllContents(files: map<string, Page>, saves: seq<Saved>)
    ensures forall k :: 0 <= k < |saves| && (forall j :: k < j < |saves| ==> saves[j].file != saves[k].file)
              ==> SaveAll(files, saves)[saves[k].file] == saves[k].page
    ensures forall f :: f in files && (forall k :: 0 <= k < |saves| ==> saves[k].file != f)
              ==> SaveAll(files, saves)[f] == files[f]
    decreases |saves|
  {
    if saves != [] {
      var init, last := saves[..|saves| - 1], saves[|saves| - 1];
      SaveAllContents(files, init);
      var before := SaveAll(files, init);
      assert SaveAll(files, saves) == before[last.file := last.page];
      forall k | 0 <= k < |saves| && (forall j :: k < j < |saves| ==> saves[j].file != saves[k].file)
        ensures SaveAll(files, saves)[saves[k].file] == saves[k].page
      {
        if k < |saves| - 1 {
          assert init[k] == saves[k];
          assert forall j :: k < j < |init| ==> init[j] == saves[j];
        }
      }
      forall f | f in files && (forall k :: 0 <= k < |saves| ==> saves[k].file != f)
        ensures SaveAll(files, saves)[f] == files[f]
      {
        assert forall k :: 0 <= k < |init| ==> init[k] == saves[k];
      }
    }
  }

  lemma {:induction false} SaveAllConcat(files: map<string, Page>, a: seq<Saved>, b: seq<Saved>)
    ensures SaveAll(files, a + b) == SaveAll(SaveAll(files, a), b)
    decreases |b|
  {
    if b == [] {
      assert a + b == a;
    } else {
      assert (a + b)[..|a + b| - 1] == a + b[..|b| - 1];
      assert (a + b)[|a + b| - 1] == b[|b| - 1];
      SaveAllConcat(files, a, b[..|b| - 1]);
    }
  }

  /** The documents directory. */
  class Documents {
    var files: map<string, Page>

    constructor ()
      ensures files == map[]
    {
      files := map[];
    }

    /** `save_page(file_name, title, html)`: the file is written, overwriting any
        earlier one of that name. */
    method Save(file: string, title: string, body: seq<Node>)
      modifies this
      ensures files == old(files)[file := Page(title, body)]
    {
      files := files[file := Page(title, body)];
    }
  }
}
