# crow incremental rebuild engine, in Dafny

This project models the core of `crow`, a live-preview engine for books
written as HTML source files. It has four parts:

- **Identity derivation** (`model.dfy`, module `Model`). `Page.from_source_path`
  turns a source path under the project root into a page. The page's title is
  the file stem, or the folder name for a folder's `index` file. Its
  table-of-contents path is built from the folders joined with `/`. Paths are
  sequences of segments, as pathlib's `parts` are.
- **Natural order** (`ordering.dfy`, module `Ordering`). The natural sort of
  source paths is a stable insertion sort under a given comparator. It is
  proved to be a permutation, and to be sorted when the comparator is a total
  preorder.
- **Project index** (`project.dfy`, module `ProjectIndex`, class `Project`).
  This holds the discovered file list, its fingerprint, and one page per file
  in natural order. `Build` clears the pages, stores the list and its hash, and
  appends the pages in a loop.
- **Record store** (`db.dfy`, module `Db`, class `PageStore`). The `pages`
  table is a map from title (the primary key) to page. There are four page
  operations. The bulk insert is one transaction: a duplicate title rolls it
  back and the table keeps its old rows.
- **Build engine** (`live.dfy`, module `Live`, class `LiveProject`).
  - A content request rebuilds everything when the stored fingerprint differs
    from that of the current listing.
  - Otherwise it looks the title up in the store. It re-renders that page
    alone when the source file's modification mark differs from the stored
    one, and otherwise serves the output file as it is.
  - A build does these steps in order: clear the store, rebuild the index,
    hand the ordered pages to the renderer's `build` hook, render every page,
    then insert all pages in one transaction.

Several of the source's dependencies become parameters:
- the filesystem a request observes is the value `SourceTree` (the glob result
  in listing order, plus each readable file's text and mark);
- the build directory is the map `outputs`, owned by the engine;
- the renderer is the function value `render`;
- Python's `hash(tuple(...))` is the function value `hash`;
- the natural-sort key is the comparator `leq`.

Ghost state records two things: the calls made to the renderer (`trace`), and
the text and page record each title's output was last rendered from
(`lastRender`).

The engine's invariant (`LiveProject.Valid`) has two parts:
- every output file holds the rendering of its title's last render;
- every stored record is the record that output was rendered with.

The invariant is what makes a served page coherent. The page is rendered from
the stored record, and that record carries the mark of the source file it was
rendered from.

One behaviour of the source is kept as written. When two source files share a
title (for example two `1.1. Welcome.html` in different chapters, or a chapter
`index.html` beside a root file named like the chapter), the bulk insert of a
build fails. The store has already been cleared and the new hash stored, so
every later request finds no page until the listing changes.
`LiveProject.Build` and `RepeatedRequest` state this.

## Model

| member | source | states |
|---|---|---|
| Model.Page.WithMark | crow/model.py:38-41 | Setting the modification mark keeps title, source path and TOC path: only `modified` changes |
| Model.Stem | crow/model.py:72 | The stem is a prefix of the name. Either one non-empty suffix starting at the last inner dot was cut, or the name has no such dot |
| Model.StemAt | crow/model.py:59 | The stem is exactly the text before the last dot when that dot is neither first nor last |
| Model.SplitJoin | crow/model.py:65 | Splitting a `/`-join of slash-free segments on `/` gives the segments back, so a TOC path determines its segments |
| Model.FromSourcePath | crow/model.py:58-88 | The page keeps its source path, starts with mark 0, a root-level index has title and TOC path `""`, and a root-level non-index page has TOC path `""` |
| Model.NestedIndexIdentity | crow/model.py:61-65 | A nested index page is titled after its folder, and its TOC path splits into exactly the folder segments, the last being the title |
| Model.NonIndexIdentity | crow/model.py:70-81 | A non-index page is titled by its file stem. At the root its TOC path is `""`. Nested, its TOC path has one segment per relative segment: the folders, then the title |
| Model.SampleRootIndex | tests/test_project.py:8 | The root `index.html` of a sample book gets title `""` and TOC path `""` |
| Model.SampleChapterIndex | tests/test_project.py:41 | `chapter 1/index.html` gets title `chapter 1` and TOC path `chapter 1` |
| Model.SampleSection | tests/test_project.py:53 | `chapter 1/1.1. Welcome.html` gets title `1.1. Welcome` (only the last extension is cut) and TOC path `chapter 1/1.1. Welcome` |
| Ordering.SortBy | crow/project.py:57 | The natural sort is a permutation of its input |
| Ordering.InsertSorted | crow/project.py:57 | Under a total preorder, inserting into a sorted list keeps it sorted |
| Ordering.SortBySorted | crow/project.py:57 | Under a total preorder, the natural sort's result is sorted |
| ProjectIndex.Project.constructor | crow/project.py:29-42 | A new project has no pages, an empty stored structure and a stored hash of 0 |
| ProjectIndex.Project.Build | crow/project.py:44-59 | The stored structure and the returned list are the discovered list, the stored hash is its hash, and the pages are exactly the indexed pages of that list. Old pages are dropped |
| ProjectIndex.Project.StructureHashGetActual | crow/project.py:71-79 | The actual hash is the hash of the current listing, and equals the stored hash when the listing is the stored one |
| ProjectIndex.Project.PagesStored | crow/project.py:81-88 | Returns the stored pages and changes nothing |
| ProjectIndex.Project.StructureStored | crow/project.py:90-97 | Returns the stored structure and changes nothing |
| ProjectIndex.Project.StructureHashStored | crow/project.py:99-106 | Returns the stored hash and changes nothing |
| ProjectIndex.Project.RootPath | crow/project.py:108-114 | Returns the root and changes nothing |
| ProjectIndex.Project.IndexedCoversDiscovered | crow/project.py:57-58 | A build's source paths are a permutation of the discovered paths: a path is discovered iff some page has it as source |
| ProjectIndex.Project.IndexedInOrder | crow/project.py:57 | Under a total preorder, a build's pages are in natural order of their source paths |
| Db.InsertAll | crow/db.py:140-145 | The rows are inserted in order; a failure is raised by a row of the batch (the model tags the error with that row's title) |
| Db.InsertAllSucceedsIff | crow/db.py:61 | The bulk insert succeeds iff the batch titles are pairwise distinct and none is already stored |
| Db.InsertAllContents | crow/db.py:140-145 | A successful insert keeps every old row and adds exactly the batch, each page under its own title |
| Db.PageStore.constructor | crow/db.py:52-65 | A freshly initialised database has no pages |
| Db.PageStore.GetByTitle | crow/db.py:109-121 | None iff the title is not stored; otherwise exactly the stored page, which has that title |
| Db.PageStore.UpdateModified | crow/db.py:124-131 | Only `modified` of the row with that title changes; other rows and fields are untouched; an absent title changes nothing |
| Db.PageStore.AddAll | crow/db.py:134-145 | Succeeds iff the sequential insert does. On success the table is the insert's result. On a duplicate the table is unchanged (rolled back); the model tags the error with the clashing title |
| Db.PageStore.Clear | crow/db.py:148-155 | The table is empty |
| Live.StoreAcceptsIff | crow/live.py:124 | After the renders, the bulk insert into the cleared store succeeds iff the build's titles are distinct |
| Live.StoredAsRendered | crow/live.py:121-124 | After a successful insert, the stored titles are exactly the build's titles, and under each title is exactly the build's rendered page with that title. Each stored record carries its file's mark and is the record its output was last rendered with, from its file's current text |
| Live.LiveProject.PageOutputPath | crow/live.py:143-152 | The output file is one entry directly inside the build directory |
| Live.LiveProject.OutputPathFollowsTitle | crow/live.py:152 | Two pages share an output file iff they share a title |
| Live.LiveProject.constructor | crow/live.py:33-67 | A fresh project index that was never built, an empty store, and the build directory as found |
| Live.LiveProject.IsProjectNeedsRebuild | crow/live.py:154-162 | A rebuild is needed iff the stored hash differs from the hash of the current listing, and never right after a build from the same listing |
| Live.LiveProject.Render | crow/live.py:126-141 | A missing source fails and changes nothing. Otherwise the page gets its file's mark, and the rendering of the file's text is written to its output path and recorded as that title's last render. The output half of the invariant (`OutputsCoherent`) is kept |
| Live.LiveProject.RenderPages | crow/live.py:120-122 | The pages are rendered in order, up to the first missing source. The rendered prefix carries its files' marks, the trace holds exactly those renders, and each title's last render is its last page rendered from its file's current text. No other output file changes |
| Live.LiveProject.RenderAndStore | crow/live.py:119-124 | Prepares once with the full ordered list, renders, then bulk-inserts. Succeeds iff all sources are readable and titles distinct. On success the index holds the marked pages and the store holds exactly those pages, each under its own title, and each stored page's output file holds the rendering of its file's current text. On failure the store stays empty. Only the index pages' output files are written |
| Live.LiveProject.Build | crow/live.py:105-124 | Clears the store, rebuilds the index, prepares once with the full ordered list before any render, then renders and stores. Succeeds iff every source is readable and titles are distinct. On success the index pages carry their files' marks, the store holds exactly those pages under their titles, and every stored page's output is the rendering of its file's current text. On failure the store is empty while the new hash is kept. Only the index pages' output files are written |
| Live.LiveProject.GetRenderedContent | crow/live.py:69-103 | Rebuilds iff the hash differs. Serves None iff the title is not stored. A served page is the stored record's rendering at the file's current mark. A rebuild request succeeds iff every source of the new index is readable and its titles are distinct; it fails on the store iff the sources are readable but two titles clash, and any failure leaves the store empty. After a successful rebuild the store holds exactly the new index's marked pages under their titles, and the content served is the rendering of the current text of the page that owns the title. A successful rebuild request prepares once with the new index and renders each page exactly once: the requested page is not rendered again after the build. Without a structure change it re-renders only the requested page, only on a mark mismatch, and otherwise changes nothing and serves the cached output |
| Live.LiveProject.ServeStored | crow/live.py:86-103 | Not found iff the title is not stored. A missing source fails and changes nothing. On a mark mismatch exactly that page is re-rendered and its record updated; otherwise nothing changes and the cached output is served. Against sources the store is up to date with, nothing changes and the rendering of the current text is served |
| Live.RepeatedRequest | crow/live.py:82-103 | When the first request succeeds, a repeated request against unchanged sources serves the same result and leaves trace, outputs and store as the first left them. After a failed build on duplicate titles, it finds nothing and renders nothing |

## Left out

- Database plumbing is not modelled: `db.init`, `connect`, `dict_factory`, the SQLite URI, read-only mode, file truncation and the module global. The store is the map field of `PageStore`, and a fresh `LiveProject` starts with an empty one.
- The renderer (crow/renderer.py) is an abstract base class. `render` is a function value, and the `build` hook is recorded as a `Prepared` event in the ghost trace.
- Discovery (`structure_get_actual`, `root.glob(pattern)`) is I/O. Its result is the `listing` of the `SourceTree` passed to each request. The listing is required to lie under the root, as glob results do. `relative_to` would raise on any other path; that is the only precondition of `FromSourcePath`.
- `natsort.os_sorted` is a foreign library with OS-dependent keys. The model sorts stably by a given comparator `leq` and does not claim natsort's exact key.
- Python's `hash(tuple(...))` is the function value `hash`. Equal lists hash equally; injectivity is not assumed.
- Float modification times are only compared for equality, so they are integer marks.
- Logging, `tempfile`, directory creation (`mkdir`) and the text encoding of `read_text`/`write_text` are not modelled.
- Model.Stem: follows `PurePath.stem` as in Python up to 3.13, where a name whose only dot is its last character keeps that dot. Later Python versions are not modelled.
- Live.LiveProject.Build: the page objects of the index are updated in place by each render. The model renders a copy of the list and stores it back into the index. On a failed render the index holds the pages rendered so far with their new marks. Aliasing between the index's pages and pages held elsewhere is not modelled.
- Live.LiveProject.GetRenderedContent: the build directory is owned by the engine. An output file deleted or edited by someone else is not modelled. Reading an output file that is missing (a `FileNotFoundError`) cannot happen in the model, because the invariant keeps every stored title's output.
- Live.LiveProject.PageOutputPath: output paths are compared exactly, as on a case-sensitive file system. On a case-insensitive one, titles such as `Intro` and `intro` are two rows of the store but one output file, so one render overwrites the other; that is not modelled. pathlib's normalisation is not modelled either: with an empty output extension and the title `""`, the path `build_path / "."` is the build directory itself, while the model keeps it as a separate entry.
- Live.LiveProject.Render: `getmtime` and `read_text` on the same file both fail as one `SourceMissing` error. A file that disappears between the two calls is not modelled.
- Exceptions other than a missing source file and the store's integrity error are not modelled; for example, an output path that cannot be written.
- ProjectIndex.Project.Valid does not carry "the pages are the indexed pages of the stored structure". The engine updates the marks of those pages after a build, so that holds only at the end of `Project.Build`, which states it.
- Db.StoreError: sqlite's `IntegrityError` names only the violated constraint. The model's error carries the clashing title as an addition, and no caller reads it.
- The renderer's `render` is a fixed function of the source text and the page. A renderer whose output depends on the list handed to its `build` hook (a table of contents, say) is not modelled.
- ProjectIndex.Project.StructureHashGetActual: the fingerprint hashes the listing in glob order, so a listing that only changes order can trigger a rebuild. The model keeps that order sensitivity: `hash` takes the listing as a sequence, not as a set.
- The commented-out `toc_from_ordered_pages` test has no counterpart in the library. `crow/__init__.py` only re-exports names.
