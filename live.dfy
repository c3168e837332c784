/** The incremental build engine (crow/live.py).

    On every content request the engine compares the stored structure hash
    with the hash of what discovery yields now and rebuilds everything on a
    mismatch; otherwise it looks the page up in the store and re-renders it
    alone when its source's modification mark differs from the stored one;
    otherwise it serves the output file as it is.

    The filesystem is modelled by value: the source tree a request observes
    (`SourceTree`, the glob result in listing order and the readable source
    files) is passed in, and the build directory is the map `outputs`, owned
    by the engine. The renderer is the function value `render`; its `build`
    hook, which has no result, is recorded in the ghost event `trace`. */
module Live {
  import opened Wrappers
  import opened Model
  import opened ProjectIndex
  import opened Db

  /** One readable source file: its text and its modification mark. */
  datatype SourceFile = SourceFile(text: string, mark: Mark)

  /** The sources as one request sees them. */
  datatype SourceTree = SourceTree(listing: seq<Path>, files: map<Path, SourceFile>)

  /** The failures a request propagates to its caller. */
  datatype Error =
    | SourceMissing(path: Path)       // FileNotFoundError from read_text / getmtime
    | Integrity(error: StoreError)    // sqlite3.IntegrityError from pages_add

  /** What the engine asked of its renderer, in order. */
  datatype Event = Prepared(pages: seq<Page>) | Rendered(page: Page)

  /** The source text a title's output was last rendered from, and the page
      record it was rendered with. */
  datatype Rendering = Rendering(text: string, page: Page)

  /** Every listed file can be read. */
  predicate Consistent(src: SourceTree) {
    forall k :: 0 <= k < |src.listing| ==> src.listing[k] in src.files
  }

  predicate SourcesPresent(pages: seq<Page>, src: SourceTree) {
    forall k :: 0 <= k < |pages| ==> pages[k].source in src.files
  }

  /** The pages after each was rendered: `modified` set to its file's mark. */
  function Marked(pages: seq<Page>, src: SourceTree): (r: seq<Page>)
    requires SourcesPresent(pages, src)
    ensures |r| == |pages|
    ensures forall k :: 0 <= k < |pages| ==> r[k] == pages[k].WithMark(src.files[pages[k].source].mark)
  {
    seq(|pages|, k requires 0 <= k < |pages| => pages[k].WithMark(src.files[pages[k].source].mark))
  }

  function RenderEvents(pages: seq<Page>): (r: seq<Event>)
    ensures |r| == |pages|
    ensures forall k :: 0 <= k < |pages| ==> r[k] == Rendered(pages[k])
  {
    seq(|pages|, k requires 0 <= k < |pages| => Rendered(pages[k]))
  }

  lemma MarkedPrefix(pages: seq<Page>, i: nat, src: SourceTree)
    requires i < |pages| && SourcesPresent(pages[..i], src) && pages[i].source in src.files
    ensures SourcesPresent(pages[..i + 1], src)
    ensures Marked(pages[..i + 1], src) == Marked(pages[..i], src) + [pages[i].WithMark(src.files[pages[i].source].mark)]
  {
    assert pages[..i + 1] == pages[..i] + [pages[i]];
  }

  /** Marking pages keeps every title, so it keeps title clashes. */
  lemma MarkedTitles(pages: seq<Page>, src: SourceTree)
    requires SourcesPresent(pages, src)
    ensures DistinctTitles(Marked(pages, src)) <==> DistinctTitles(pages)
  {
    var ms := Marked(pages, src);
    assert forall k :: 0 <= k < |pages| ==> ms[k].title == pages[k].title;
  }

  /** `a` and `b` agree on every key outside `w`: the same keys, the same
      values. */
  ghost predicate SameOutside<K, V>(a: map<K, V>, b: map<K, V>, w: set<K>) {
    a - w == b - w
  }

  /** Writing one more entry, and excluding it, keeps two maps equal outside
      the excluded keys. */
  lemma WriteOutside<K, V>(a: map<K, V>, b: map<K, V>, w: set<K>, x: K, v: V)
    requires SameOutside(a, b, w)
    ensures SameOutside(a[x := v], b, w + {x})
  {
    var l, r := a[x := v] - (w + {x}), b - (w + {x});
    forall y ensures y in l <==> y in r {
      assert y in l <==> y in a - w && y != x;
      assert y in r <==> y in b - w && y != x;
    }
    forall y | y in l ensures l[y] == r[y] {
      assert l[y] == (a - w)[y] == (b - w)[y] == r[y];
    }
    assert l.Keys == r.Keys;
  }

  /** Two maps equal outside `w` are equal outside any larger set. */
  lemma ExcludeMore<K, V>(a: map<K, V>, b: map<K, V>, w: set<K>, w2: set<K>)
    requires SameOutside(a, b, w) && w <= w2
    ensures SameOutside(a, b, w2)
  {
    var l, r := a - w2, b - w2;
    forall y ensures y in l <==> y in r {
      assert y in l <==> y in a - w && y !in w2;
      assert y in r <==> y in b - w && y !in w2;
    }
    forall y | y in l ensures l[y] == r[y] {
      assert l[y] == (a - w)[y] == (b - w)[y] == r[y];
    }
    assert l.Keys == r.Keys;
  }

  /** For each title among `done`, the last page with that title. */
  ghost function LastByTitle(done: seq<Page>): map<string, Page>
    decreases |done|
  {
    if |done| == 0 then map[]
    else LastByTitle(done[..|done| - 1])[done[|done| - 1].title := done[|done| - 1]]
  }

  /** For distinct titles, every page is the last one with its title. */
  lemma {:induction false} LastByTitleDistinct(done: seq<Page>)
    requires DistinctTitles(done)
    ensures forall k :: 0 <= k < |done| ==> done[k].title in LastByTitle(done) && LastByTitle(done)[done[k].title] == done[k]
    decreases |done|
  {
    if |done| > 0 {
      var init := done[..|done| - 1];
      assert DistinctTitles(init) by {
        forall i, j | 0 <= i < j < |init| ensures init[i].title != init[j].title {
          assert init[i] == done[i] && init[j] == done[j];
        }
      }
      LastByTitleDistinct(init);
      forall k | 0 <= k < |done| - 1 ensures done[k].title != done[|done| - 1].title && init[k] == done[k] { }
    }
  }

  /** The last render of each title among `done` is recorded: it rendered
      that title's last page from the current text of the page's source. */
  ghost predicate RenderedAll(lastRender: map<string, Rendering>, done: seq<Page>, src: SourceTree) {
    forall t :: t in LastByTitle(done) ==>
      var p := LastByTitle(done)[t];
      && p.source in src.files
      && t in lastRender
      && lastRender[t] == Rendering(src.files[p.source].text, p)
  }

  lemma RenderedAllStep(lastRender: map<string, Rendering>, done: seq<Page>, p: Page, src: SourceTree)
    requires RenderedAll(lastRender, done, src) && p.source in src.files
    ensures RenderedAll(lastRender[p.title := Rendering(src.files[p.source].text, p)], done + [p], src)
  {
    var d := done + [p];
    assert d[..|d| - 1] == done;
    assert LastByTitle(d) == LastByTitle(done)[p.title := p];
    forall t | t in LastByTitle(d) && t != p.title ensures t in LastByTitle(done) { }
  }

  /** A build's trace: one Prepared event, then Rendered events only. */
  lemma PreparedThenRendered(t: seq<Event>, t0: seq<Event>, indexed: seq<Page>, done: seq<Page>)
    requires t == t0 + [Prepared(indexed)] + RenderEvents(done)
    ensures |t| > |t0| && t[..|t0|] == t0 && t[|t0|] == Prepared(indexed)
    ensures forall k :: |t0| < k < |t| ==> t[k].Rendered?
  {
    forall k | |t0| < k < |t| ensures t[k].Rendered? {
      assert t[k] == RenderEvents(done)[k - |t0| - 1];
    }
  }

  /** The table holds exactly the pages of `pages`, each under its own title. */
  ghost predicate StoresExactly(m: map<string, Page>, pages: seq<Page>) {
    && (forall t :: t in m <==> exists k :: 0 <= k < |pages| && pages[k].title == t)
    && (forall k :: 0 <= k < |pages| ==> pages[k].title in m && m[pages[k].title] == pages[k])
  }

  /** Storing the rendered pages of a build into the emptied store fails
      exactly when two of the build's pages share a title. */
  lemma StoreAcceptsIff(indexed: seq<Page>, src: SourceTree, pages: seq<Page>)
    requires SourcesPresent(indexed, src) && pages == Marked(indexed, src)
    ensures InsertAll(map[], pages).Ok? <==> DistinctTitles(indexed)
  {
    MarkedTitles(indexed, src);
    InsertAllSucceedsIff(map[], pages);
  }

  /** Pages stored after their renders, under distinct titles: each stored
      record is the one its title was last rendered with, and it carries its
      file's mark. */
  lemma StoredAsRendered(lastRender: map<string, Rendering>, indexed: seq<Page>, src: SourceTree, pages: seq<Page>)
    requires SourcesPresent(indexed, src) && pages == Marked(indexed, src)
    requires InsertAll(map[], pages).Ok? && RenderedAll(lastRender, pages, src)
    ensures var m := InsertAll(map[], pages).value;
      && (forall t :: t in m <==> exists k :: 0 <= k < |indexed| && indexed[k].title == t)
      && StoresExactly(m, pages)
      && (forall t :: t in m ==>
            && m[t].source in src.files && m[t].modified == src.files[m[t].source].mark
            && t in lastRender && lastRender[t] == Rendering(src.files[m[t].source].text, m[t]))
  {
    var m := InsertAll(map[], pages).value;
    InsertAllSucceedsIff(map[], pages);
    InsertAllContents(map[], pages);
    LastByTitleDistinct(pages);
    forall t | t in m
      ensures m[t].source in src.files && m[t].modified == src.files[m[t].source].mark
      ensures t in lastRender && lastRender[t] == Rendering(src.files[m[t].source].text, m[t])
    {
      var k :| 0 <= k < |pages| && pages[k].title == t;
      assert m[t] == pages[k];
    }
    forall t ensures t in m <==> exists k :: 0 <= k < |indexed| && indexed[k].title == t {
      if t in m {
        var k :| 0 <= k < |pages| && pages[k].title == t;
        assert indexed[k].title == t;
      }
      if exists k :: 0 <= k < |indexed| && indexed[k].title == t {
        var k :| 0 <= k < |indexed| && indexed[k].title == t;
        assert pages[k].title == t;
      }
    }
  }

  /** When every listed file is readable, so is every page of the build. */
  lemma ReadableIndexed(project: Project, src: SourceTree)
    requires AllUnder(src.listing, project.root)
    ensures Consistent(src) ==> SourcesPresent(project.Indexed(src.listing), src)
  {
    var indexed := project.Indexed(src.listing);
    project.IndexedCoversDiscovered(src.listing);
    if Consistent(src) {
      forall k | 0 <= k < |indexed| ensures indexed[k].source in src.files {
        assert indexed[k].source in src.listing;
      }
    }
  }

  class LiveProject {
    const buildPath: Path
    const outputExtension: string
    const render: (string, Page) -> string
    const project: Project
    const store: PageStore

    /** The build directory: output path to file contents. */
    var outputs: map<Path, string>
    ghost var trace: seq<Event>
    ghost var lastRender: map<string, Rendering>

    /** LiveProject.page_output_path: `build_path / (title + "." + ext)`. */
    function PageOutputPath(page: Page): (p: Path)
      ensures |p| == |buildPath| + 1 && p[..|buildPath|] == buildPath
    {
      buildPath + [page.title + "." + outputExtension]
    }

    /** The output files of `pages`. */
    ghost function OutputPaths(pages: seq<Page>): set<Path>
      decreases |pages|
    {
      if |pages| == 0 then {}
      else OutputPaths(pages[..|pages| - 1]) + {PageOutputPath(pages[|pages| - 1])}
    }

    lemma OutputPathsStep(pages: seq<Page>, i: nat)
      requires i < |pages|
      ensures OutputPaths(pages[..i + 1]) == OutputPaths(pages[..i]) + {PageOutputPath(pages[i])}
    {
      assert pages[..i + 1][..i] == pages[..i];
    }

    lemma OutputPathsPrefix(pages: seq<Page>, n: nat)
      requires n <= |pages|
      ensures OutputPaths(pages[..n]) <= OutputPaths(pages)
      decreases |pages| - n
    {
      if n < |pages| {
        OutputPathsStep(pages, n);
        OutputPathsPrefix(pages, n + 1);
      } else {
        assert pages[..n] == pages;
      }
    }

    /** The output path is a function of the title alone, and different
        titles get different output files. */
    lemma OutputPathFollowsTitle(p: Page, q: Page)
      ensures PageOutputPath(p) == PageOutputPath(q) <==> p.title == q.title
    {
      if PageOutputPath(p) == PageOutputPath(q) {
        var a, b := p.title + "." + outputExtension, q.title + "." + outputExtension;
        assert a == PageOutputPath(p)[|buildPath|] == PageOutputPath(q)[|buildPath|] == b;
        assert p.title == a[..|p.title|];
        assert q.title == b[..|q.title|];
      }
    }

    /** Each title's output file holds the rendering of its last render. */
    ghost predicate OutputsCoherent()
      reads this
    {
      forall t :: t in lastRender ==>
        && lastRender[t].page.title == t
        && PageOutputPath(lastRender[t].page) in outputs
        && outputs[PageOutputPath(lastRender[t].page)] == render(lastRender[t].text, lastRender[t].page)
    }

    /** Each stored record is the very record its output was rendered with. */
    ghost predicate StoreCoherent()
      reads this, store
    {
      forall t :: t in store.pages ==> t in lastRender && lastRender[t].page == store.pages[t]
    }

    ghost predicate Valid()
      reads this, project, store
    {
      project.Valid() && store.Valid() && OutputsCoherent() && StoreCoherent()
    }

    /** Against the sources `src`, every stored record carries its file's
        mark and its output file holds the rendering of that file's text. */
    ghost predicate UpToDate(src: SourceTree)
      reads this, store
    {
      forall t :: t in store.pages ==>
        var p := store.pages[t];
        && p.source in src.files && p.modified == src.files[p.source].mark
        && PageOutputPath(p) in outputs && outputs[PageOutputPath(p)] == render(src.files[p.source].text, p)
    }

    /** LiveProject.__init__: a fresh project index and an emptied store;
        whatever the build directory already holds stays there. */
    constructor (root: Path, buildPath: Path, render: (string, Page) -> string, outputExtension: string,
                 hash: seq<Path> -> int, leq: (Path, Path) -> bool, buildDir: map<Path, string>)
      ensures Valid() && fresh(project) && fresh(store)
      ensures this.buildPath == buildPath && this.render == render && this.outputExtension == outputExtension
      ensures project.root == root && project.hash == hash && project.leq == leq && !project.built
      ensures store.pages == map[] && outputs == buildDir && trace == []
    {
      this.buildPath := buildPath;
      this.outputExtension := outputExtension;
      this.render := render;
      project := new Project(root, hash, leq);
      store := new PageStore();
      outputs := buildDir;
      trace := [];
      lastRender := map[];
    }

    /** LiveProject.is_project_needs_rebuild: the stored and actual hashes
        differ. Right after a build from the same listing they never do. */
    method IsProjectNeedsRebuild(src: SourceTree) returns (b: bool)
      requires Valid()
      ensures b <==> project.structureHashStored != project.hash(src.listing)
      ensures project.built && src.listing == project.structureStored ==> !b
    {
      var stored := project.StructureHashStored();
      var actual := project.StructureHashGetActual(src.listing);
      b := stored != actual;
    }

    /** LiveProject.render: read the source, set the page's mark to the
        file's, render and write the output file. Returns the page with its
        new mark (the source updates the page object in place). */
    method Render(page: Page, src: SourceTree) returns (r: Result<Page, Error>)
      requires OutputsCoherent()
      modifies this
      ensures OutputsCoherent()
      ensures page.source !in src.files ==>
        && r == Err(SourceMissing(page.source))
        && outputs == old(outputs) && trace == old(trace) && lastRender == old(lastRender)
      ensures page.source in src.files ==>
        var f := src.files[page.source];
        var rendered := page.WithMark(f.mark);
        && r == Ok(rendered)
        && outputs == old(outputs)[PageOutputPath(page) := render(f.text, rendered)]
        && trace == old(trace) + [Rendered(rendered)]
        && lastRender == old(lastRender)[page.title := Rendering(f.text, rendered)]
    {
      if page.source !in src.files {
        return Err(SourceMissing(page.source));
      }
      var sourceContent := src.files[page.source].text;
      var rendered := page.WithMark(src.files[page.source].mark);
      var renderedContent := render(sourceContent, rendered);
      outputs := outputs[PageOutputPath(rendered) := renderedContent];
      trace := trace + [Rendered(rendered)];
      lastRender := lastRender[page.title := Rendering(sourceContent, rendered)];
      forall t | t in lastRender && t != page.title
        ensures PageOutputPath(lastRender[t].page) != PageOutputPath(rendered)
      {
        OutputPathFollowsTitle(lastRender[t].page, rendered);
      }
      r := Ok(rendered);
    }

    /** The render loop of LiveProject.build: render each page in order,
        stopping at the first whose source cannot be read. The first `n`
        pages were rendered: in `marked` they carry their file's mark, the
        rest are as they were. */
    method RenderPages(pages: seq<Page>, src: SourceTree) returns (marked: seq<Page>, r: Result<(), Error>, ghost n: nat)
      requires OutputsCoherent()
      modifies this
      ensures OutputsCoherent()
      ensures n <= |pages| && SourcesPresent(pages[..n], src)
      ensures marked == Marked(pages[..n], src) + pages[n..]
      ensures trace == old(trace) + RenderEvents(Marked(pages[..n], src))
      ensures RenderedAll(lastRender, Marked(pages[..n], src), src)
      ensures SameOutside(outputs, old(outputs), OutputPaths(pages[..n]))
      ensures r.Ok? <==> n == |pages|
      ensures r.Ok? <==> SourcesPresent(pages, src)
      ensures r.Err? ==> pages[n].source !in src.files && r == Err(SourceMissing(pages[n].source))
    {
      var done: seq<Page> := [];
      var i := 0;
      while i < |pages|
        invariant 0 <= i <= |pages|
        invariant OutputsCoherent()
        invariant SourcesPresent(pages[..i], src) && done == Marked(pages[..i], src)
        invariant trace == old(trace) + RenderEvents(done)
        invariant RenderedAll(lastRender, done, src)
        invariant SameOutside(outputs, old(outputs), OutputPaths(pages[..i]))
      {
        ghost var lastRenderBefore, outputsBefore := lastRender, outputs;
        var rendered := Render(pages[i], src);
        if rendered.Err? {
          return done + pages[i..], Err(rendered.error), i;
        }
        MarkedPrefix(pages, i, src);
        RenderedAllStep(lastRenderBefore, done, rendered.value, src);
        OutputPathsStep(pages, i);
        WriteOutside(outputsBefore, old(outputs), OutputPaths(pages[..i]),
                     PageOutputPath(pages[i]), outputs[PageOutputPath(pages[i])]);
        done := done + [rendered.value];
        i := i + 1;
      }
      assert pages[..i] == pages;
      marked := done;
      r, n := Ok(()), i;
    }

    /** The second half of LiveProject.build: hand the index's pages to the
        renderer's `build` hook, render them in order, then insert them all
        into the emptied store. The index's page objects are updated in place
        by each render; the model renders the list and stores the updated
        list back into the index. */
    method RenderAndStore(indexed: seq<Page>, src: SourceTree) returns (r: Result<(), Error>)
      requires OutputsCoherent() && store.Valid() && store.pages == map[]
      requires project.Valid() && project.built
      modifies this, store, project
      ensures OutputsCoherent() && store.Valid() && StoreCoherent() && project.Valid()
      ensures project.built && project.structureStored == old(project.structureStored)
      ensures project.structureHashStored == old(project.structureHashStored)
      // prepare once, with the full ordered list, before any render
      ensures |trace| > |old(trace)| && trace[..|old(trace)|] == old(trace)
      ensures trace[|old(trace)|] == Prepared(indexed)
      ensures forall k :: |old(trace)| < k < |trace| ==> trace[k].Rendered?
      ensures r.Ok? <==> SourcesPresent(indexed, src) && DistinctTitles(indexed)
      ensures r.Err? && r.error.Integrity? ==> SourcesPresent(indexed, src)
      ensures r.Err? && r.error.SourceMissing? ==> !SourcesPresent(indexed, src)
      ensures SameOutside(outputs, old(outputs), OutputPaths(indexed))
      ensures r.Ok? ==>
        && project.pages == Marked(indexed, src)
        && trace == old(trace) + [Prepared(indexed)] + RenderEvents(project.pages)
        && (forall t :: t in store.pages <==> exists k :: 0 <= k < |indexed| && indexed[k].title == t)
        && StoresExactly(store.pages, project.pages)
        && UpToDate(src)
      ensures r.Err? ==> store.pages == map[]
    {
      ghost var t0 := trace;
      trace := trace + [Prepared(indexed)];
      var pages, rendered;
      ghost var n;
      pages, rendered, n := RenderPages(indexed, src);
      PreparedThenRendered(trace, t0, indexed, Marked(indexed[..n], src));
      OutputPathsPrefix(indexed, n);
      ExcludeMore(outputs, old(outputs), OutputPaths(indexed[..n]), OutputPaths(indexed));
      project.pages := pages;
      if rendered.Err? {
        return rendered;
      }
      assert indexed[..n] == indexed;
      assert pages == Marked(indexed, src);
      StoreAcceptsIff(indexed, src, pages);
      var added := store.AddAll(pages);
      if added.Err? {
        return Err(Integrity(added.error));
      }
      StoredAsRendered(lastRender, indexed, src, pages);
      r := Ok(());
    }

    /** LiveProject.build: clear the store, rebuild the index, hand the
        ordered pages to the renderer, render every page, then insert all
        pages into the store in one transaction. */
    method Build(src: SourceTree) returns (r: Result<(), Error>)
      requires Valid() && AllUnder(src.listing, project.root)
      modifies this, project, store
      ensures Valid()
      ensures project.built && project.structureStored == src.listing
      ensures project.structureHashStored == project.hash(src.listing)
      ensures var indexed := project.Indexed(src.listing);
        // prepare once, with the full ordered list, before any render
        && |trace| > |old(trace)| && trace[..|old(trace)|] == old(trace)
        && trace[|old(trace)|] == Prepared(indexed)
        && (forall k :: |old(trace)| < k < |trace| ==> trace[k].Rendered?)
        // the build succeeds exactly when every source is readable and the titles are distinct
        && (r.Ok? <==> SourcesPresent(indexed, src) && DistinctTitles(indexed))
        && (r.Err? && r.error.Integrity? ==> SourcesPresent(indexed, src))
        && (r.Err? && r.error.SourceMissing? ==> !SourcesPresent(indexed, src))
        && (Consistent(src) ==> r.Ok? || r.error.Integrity?)
        // only the output files of the index's pages are written
        && SameOutside(outputs, old(outputs), OutputPaths(indexed))
        // on success: every page rendered once, in order, stored with its file's mark,
        // and its output is the rendering of that file's current text
        && (r.Ok? ==>
              && project.pages == Marked(indexed, src)
              && trace == old(trace) + [Prepared(indexed)] + RenderEvents(project.pages)
              && (forall t :: t in store.pages <==> exists k :: 0 <= k < |indexed| && indexed[k].title == t)
              && StoresExactly(store.pages, project.pages)
              && UpToDate(src))
        // on failure: the store stays cleared
        && (r.Err? ==> store.pages == map[])
    {
      store.Clear();
      var _ := project.Build(src.listing);
      var indexed := project.PagesStored();
      ReadableIndexed(project, src);
      r := RenderAndStore(indexed, src);
    }

    /** A request for `title` served from a fresh structure, starting from
        the table `pages0`, the build directory `outputs0` and the trace
        `trace0`: an absent title is not found and a missing source fails,
        both changing nothing; a page whose file's mark equals the stored one
        is served from its output file as it is; otherwise exactly that page
        is re-rendered, its output written and its record's mark updated. */
    ghost predicate ServedFrom(title: string, src: SourceTree, r: Result<Option<string>, Error>,
                               pages0: map<string, Page>, outputs0: map<Path, string>, trace0: seq<Event>)
      reads this, store
    {
      if title !in pages0 then
        r == Ok(None) && store.pages == pages0 && outputs == outputs0 && trace == trace0
      else
        var p := pages0[title];
        if p.source !in src.files then
          r == Err(SourceMissing(p.source))
          && store.pages == pages0 && outputs == outputs0 && trace == trace0
        else if src.files[p.source].mark == p.modified then
          PageOutputPath(p) in outputs0 && r == Ok(Some(outputs0[PageOutputPath(p)]))
          && store.pages == pages0 && outputs == outputs0 && trace == trace0
        else
          var f := src.files[p.source];
          var q := p.WithMark(f.mark);
          && r == Ok(Some(render(f.text, q)))
          && store.pages == pages0[title := q]
          && outputs == outputs0[PageOutputPath(p) := render(f.text, q)]
          && trace == trace0 + [Rendered(q)]
    }

    /** LiveProject.get_rendered_content. */
    method GetRenderedContent(title: string, src: SourceTree) returns (r: Result<Option<string>, Error>)
      requires Valid() && AllUnder(src.listing, project.root)
      modifies this, project, store
      ensures Valid()
      // a full rebuild runs exactly when the stored hash differs from the actual one
      ensures var rebuilt := old(project.structureHashStored) != project.hash(src.listing);
        && (rebuilt <==> |trace| > |old(trace)| && trace[|old(trace)|].Prepared?)
        && (rebuilt ==> project.structureStored == src.listing)
        && (!rebuilt ==> project.pages == old(project.pages) && project.structureStored == old(project.structureStored))
        && project.structureHashStored == project.hash(src.listing)
      // not found exactly when the title is absent once the structure is fresh
      ensures r.Ok? ==> (r.value.None? <==> title !in store.pages)
      // what is served is the output of the stored record, rendered at the file's current mark
      ensures r.Ok? && r.value.Some? ==>
        && title in store.pages
        && var p := store.pages[title];
        && p.source in src.files && p.modified == src.files[p.source].mark
        && r.value.value == outputs[PageOutputPath(p)]
        && r.value.value == render(lastRender[title].text, p)
      // no structure change: at most the requested page is re-rendered
      ensures old(project.structureHashStored) == project.hash(src.listing) ==>
        ServedFrom(title, src, r, old(store.pages), old(outputs), old(trace))
      // a successful rebuild request prepares once and renders each page
      // once: the requested page is not rendered again after the build
      ensures old(project.structureHashStored) != project.hash(src.listing) && r.Ok? ==>
        trace == old(trace) + [Prepared(project.Indexed(src.listing))] + RenderEvents(project.pages)
      // a rebuild succeeds exactly when the build does; a failed one leaves
      // an empty store; only the new pages' output files are written
      ensures old(project.structureHashStored) != project.hash(src.listing) ==>
        var ix := project.Indexed(src.listing);
        && (r.Ok? <==> SourcesPresent(ix, src) && DistinctTitles(ix))
        && (r.Err? && r.error.Integrity? <==> SourcesPresent(ix, src) && !DistinctTitles(ix))
        && (r.Err? ==> store.pages == map[])
        && SameOutside(outputs, old(outputs), OutputPaths(ix))
      // after a successful rebuild the store holds exactly the new index's
      // pages under their titles, each rendered from its file's current text,
      // and the requested title's rendering is what is served
      ensures old(project.structureHashStored) != project.hash(src.listing) && r.Ok? ==>
        var ix := project.Indexed(src.listing);
        && SourcesPresent(ix, src)
        && project.pages == Marked(ix, src)
        && (forall t :: t in store.pages <==> exists k :: 0 <= k < |ix| && ix[k].title == t)
        && StoresExactly(store.pages, project.pages)
        && UpToDate(src)
        && (r.value.Some? ==>
              && (exists k :: 0 <= k < |ix| && ix[k].title == title
                    && store.pages[title] == ix[k].WithMark(src.files[ix[k].source].mark))
              && r.value.value == render(src.files[store.pages[title].source].text, store.pages[title]))
      // a rebuild that fails leaves an empty store behind a refreshed hash
      ensures r.Err? && r.error.Integrity? ==> store.pages == map[]
    {
      ghost var t0 := trace;
      var needsRebuild := IsProjectNeedsRebuild(src);
      if needsRebuild {
        var built := Build(src);
        if built.Err? {
          return Err(built.error);
        }
      }
      ghost var t1 := trace;
      assert needsRebuild <==> |t1| > |t0| && t1[|t0|].Prepared?;
      r := ServeStored(title, src);
      assert needsRebuild ==> trace[|t0|] == t1[|t0|];
    }

    /** The second half of LiveProject.get_rendered_content, once the
        structure is fresh: look the title up, re-render the page when its
        file's mark differs from the stored one, then read its output file. */
    method ServeStored(title: string, src: SourceTree) returns (r: Result<Option<string>, Error>)
      requires Valid()
      modifies this, store
      ensures Valid()
      ensures |old(trace)| <= |trace| <= |old(trace)| + 1 && trace[..|old(trace)|] == old(trace)
      ensures |trace| > |old(trace)| ==> trace[|old(trace)|].Rendered?
      ensures r.Ok? ==> (r.value.None? <==> title !in store.pages)
      ensures r.Ok? && r.value.Some? ==>
        && title in store.pages
        && var p := store.pages[title];
        && p.source in src.files && p.modified == src.files[p.source].mark
        && r.value.value == outputs[PageOutputPath(p)]
        && r.value.value == render(lastRender[title].text, p)
      ensures ServedFrom(title, src, r, old(store.pages), old(outputs), old(trace))
      // against sources the store is up to date with, nothing changes and
      // the rendering of the current text is served
      ensures old(UpToDate(src)) ==>
        && r.Ok? && store.pages == old(store.pages) && outputs == old(outputs) && trace == old(trace)
        && (r.value.Some? ==> r.value.value == render(src.files[store.pages[title].source].text, store.pages[title]))
    {
      var page := store.GetByTitle(title);
      if page.None? {
        return Ok(None);
      }
      var p := page.value;
      if p.source !in src.files {
        return Err(SourceMissing(p.source));
      }
      var pageTimestampReal := src.files[p.source].mark;
      if pageTimestampReal != p.modified {
        var rendered := Render(p, src);
        p := rendered.value;
        store.UpdateModified(p);
      }
      r := Ok(Some(outputs[PageOutputPath(p)]));
    }
  }

  /** Two requests for the same title against the same sources: when the
      first succeeds, the second serves what the first served and changes
      nothing (no render, no output written, no record updated); the
      `between` values are the state the first request left. If the first
      failed on a duplicate title, the second finds nothing and renders
      nothing: it does not rebuild again. */
  method RepeatedRequest(live: LiveProject, title: string, src: SourceTree)
    returns (first: Result<Option<string>, Error>, second: Result<Option<string>, Error>,
             ghost traceBetween: seq<Event>, ghost outputsBetween: map<Path, string>,
             ghost storeBetween: map<string, Page>)
    requires live.Valid() && AllUnder(src.listing, live.project.root)
    modifies live, live.project, live.store
    ensures live.Valid()
    ensures first.Ok? ==>
      && second == first
      && live.trace == traceBetween && live.outputs == outputsBetween && live.store.pages == storeBetween
    ensures first.Err? && first.error.Integrity? ==> second == Ok(None) && live.trace == traceBetween
  {
    first := live.GetRenderedContent(title, src);
    traceBetween, outputsBetween, storeBetween := live.trace, live.outputs, live.store.pages;
    if first.Ok? && first.value.Some? {
      // the first request left the page at its file's mark
      var p := live.store.pages[title];
      assert p.source in src.files && src.files[p.source].mark == p.modified;
      assert first.value.value == live.outputs[live.PageOutputPath(p)];
    }
    second := live.GetRenderedContent(title, src);
  }
}
