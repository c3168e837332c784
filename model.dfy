/** The page record and identity derivation (crow/model.py).

    A filesystem path is a sequence of segments (pathlib's `parts`); a
    path relative to the project root is what is left after dropping the
    root's segments. `Page.from_source_path` maps a source path to the
    page's title and table-of-contents path. */
module Model {

  /** A path as its segments, e.g. ["book", "chapter 1", "index.html"]. */
  type Path = seq<string>

  /** A modification mark (a float mtime in the source, only ever compared
      for equality). */
  type Mark = int

  /** The reserved base name of a folder's entry page. */
  const IndexStem := "index"

  /** A page: title, source_path and toc_path are frozen fields; only
      `modified` is ever reassigned. */
  datatype Page = Page(title: string, source: Path, tocPath: string, modified: Mark)
  {
    /** The page with a new `modified` mark (the one field that may change). */
    function WithMark(mark: Mark): (q: Page)
      ensures SameIdentity(this, q)
      ensures q.modified == mark
    {
      this.(modified := mark)
    }
  }

  /** Two records of the same page: every frozen field agrees. */
  predicate SameIdentity(p: Page, q: Page) {
    p.title == q.title && p.source == q.source && p.tocPath == q.tocPath
  }

  /** True when no segment contains '/' (true of every pathlib part). */
  predicate NoSlash(parts: seq<string>) {
    forall k :: 0 <= k < |parts| ==> '/' !in parts[k]
  }

  // ---------------------------------------------------------------------
  // String helpers: str.rfind, PurePath.name / PurePath.stem, "/".join and
  // str.split("/").
  // ---------------------------------------------------------------------

  /** Index of the last occurrence of `c` in `s`, or -1 (str.rfind). */
  function RFind(s: string, c: char): (i: int)
    ensures -1 <= i < |s|
    ensures i >= 0 ==> s[i] == c
    ensures forall j :: i < j < |s| ==> s[j] != c
  {
    if |s| == 0 then -1
    else if s[|s| - 1] == c then |s| - 1
    else RFind(s[..|s| - 1], c)
  }

  /** The final segment of a path ("" for the empty path). */
  function Name(path: Path): string {
    if |path| == 0 then "" else path[|path| - 1]
  }

  /** PurePath.stem: the name without its last suffix. A suffix is the part
      from the last '.', provided that dot is neither the first nor the last
      character of the name. */
  function Stem(name: string): (r: string)
    ensures r <= name
    // Either one suffix ".ext" was cut: it is non-empty and has no other dot ...
    ensures r != name ==>
      && 0 < |r| < |name| - 1
      && name[|r|] == '.'
      && forall j :: |r| < j < |name| ==> name[j] != '.'
    // ... or the name has no strippable suffix at all.
    ensures r == name ==>
      (|name| > 0 && name[|name| - 1] == '.') || forall j :: 0 < j < |name| - 1 ==> name[j] != '.'
  {
    var i := RFind(name, '.');
    if 0 < i < |name| - 1 then name[..i] else name
  }

  /** "/".join(parts). */
  function Join(parts: seq<string>): string {
    if |parts| == 0 then ""
    else if |parts| == 1 then parts[0]
    else parts[0] + "/" + Join(parts[1..])
  }

  /** s.split("/"): the '/'-separated fields of `s`, always at least one. */
  function Split(s: string): (r: seq<string>)
    ensures |r| >= 1
  {
    if |s| == 0 then [""]
    else
      var rest := Split(s[1..]);
      if s[0] == '/' then [""] + rest
      else [[s[0]] + rest[0]] + rest[1..]
  }

  lemma {:induction false} SplitNoSlash(a: string)
    requires '/' !in a
    ensures Split(a) == [a]
  {
    if |a| > 0 {
      assert '/' !in a[1..] by {
        forall j | 0 <= j < |a[1..]| ensures a[1..][j] != '/' { assert a[1..][j] == a[j + 1]; }
      }
      SplitNoSlash(a[1..]);
      assert [a[0]] + a[1..] == a;
    }
  }

  lemma {:induction false} SplitAtSlash(a: string, b: string)
    requires '/' !in a
    ensures Split(a + "/" + b) == [a] + Split(b)
  {
    if |a| == 0 {
      assert a + "/" + b == "/" + b;
      assert ("/" + b)[1..] == b;
    } else {
      assert '/' !in a[1..] by {
        forall j | 0 <= j < |a[1..]| ensures a[1..][j] != '/' { assert a[1..][j] == a[j + 1]; }
      }
      SplitAtSlash(a[1..], b);
      assert (a + "/" + b)[1..] == a[1..] + "/" + b;
      assert [a[0]] + a[1..] == a;
    }
  }

  /** Splitting a join of slash-free segments gives the segments back. */
  lemma {:induction false} SplitJoin(parts: seq<string>)
    requires |parts| >= 1 && NoSlash(parts)
    ensures Split(Join(parts)) == parts
  {
    if |parts| == 1 {
      SplitNoSlash(parts[0]);
    } else {
      SplitJoin(parts[1..]);
      SplitAtSlash(parts[0], Join(parts[1..]));
      assert [parts[0]] + parts[1..] == parts;
    }
  }

  // ---------------------------------------------------------------------
  // Page.from_source_path
  // ---------------------------------------------------------------------

  /** The source path's segments relative to the project root. */
  function RelParts(source: Path, root: Path): (parts: seq<string>)
    requires root <= source
    ensures root + parts == source
  {
    source[|root|..]
  }

  /** True when the file's stem is the reserved name `index`. */
  predicate IsIndex(source: Path) {
    Stem(Name(source)) == IndexStem
  }

  /** Page.from_source_path: the page of one discovered source file. */
  function FromSourcePath(source: Path, root: Path): (r: Page)
    requires root <= source
    ensures r.source == source
    ensures r.modified == 0
    ensures IsIndex(source) && |RelParts(source, root)| <= 1 ==> r.title == "" && r.tocPath == ""
    ensures !IsIndex(source) && |RelParts(source, root)| <= 1 ==> r.tocPath == ""
  {
    var parts := RelParts(source, root);
    var stem := Stem(Name(source));
    if stem == IndexStem then
      if |parts| > 1 then
        Page(parts[|parts| - 2], source, Join(parts[..|parts| - 1]), 0)
      else
        Page("", source, "", 0)
    else
      var title := stem;
      if |parts| >= 2 then
        Page(title, source, Join(parts[..|parts| - 1] + [title]), 0)
      else
        Page(title, source, "", 0)
  }

  /** A nested index page is titled after its folder, and its TOC path is
      exactly the folder's segments, so its last segment is the title. */
  lemma NestedIndexIdentity(source: Path, root: Path)
    requires root <= source && IsIndex(source)
    requires |RelParts(source, root)| > 1 && NoSlash(RelParts(source, root))
    ensures var parts, p := RelParts(source, root), FromSourcePath(source, root);
      && p.title == parts[|parts| - 2]
      && Split(p.tocPath) == parts[..|parts| - 1]
      && Split(p.tocPath)[|parts| - 2] == p.title
  {
    var parts := RelParts(source, root);
    SplitJoin(parts[..|parts| - 1]);
  }

  /** A non-index page is titled by its file name with the last extension
      stripped; nested, its TOC path has one segment per relative segment,
      the folders followed by the title; at the root, its TOC path is "". */
  lemma NonIndexIdentity(source: Path, root: Path)
    requires root <= source && !IsIndex(source)
    ensures var parts, p := RelParts(source, root), FromSourcePath(source, root);
      && p.title == Stem(Name(source))
      && (|parts| <= 1 ==> p.tocPath == "")
      && (|parts| >= 2 && NoSlash(parts) ==>
            && Split(p.tocPath) == parts[..|parts| - 1] + [p.title]
            && |Split(p.tocPath)| == |parts|
            && Split(p.tocPath)[|parts| - 1] == p.title)
  {
    var parts, p := RelParts(source, root), FromSourcePath(source, root);
    if |parts| >= 2 && NoSlash(parts) {
      var name := parts[|parts| - 1];
      assert Name(source) == name;
      assert '/' !in p.title by {
        forall j | 0 <= j < |p.title| ensures p.title[j] != '/' {
          assert p.title[j] == name[j];
        }
      }
      SplitJoin(parts[..|parts| - 1] + [p.title]);
    }
  }

  /** The stem of a name is what precedes its last dot, when that dot is
      neither the first nor the last character. */
  lemma StemAt(name: string, i: nat)
    requires 0 < i < |name| - 1 && name[i] == '.'
    requires forall j :: i < j < |name| ==> name[j] != '.'
    ensures Stem(name) == name[..i]
  {
    assert RFind(name, '.') == i;
  }

  /** A sample book whose root is ["book"]: its root index page. */
  lemma SampleRootIndex()
    ensures var p := FromSourcePath(["book", "index.html"], ["book"]);
      p.title == "" && p.tocPath == ""
  {
    StemAt("index.html", 5);
    assert "index.html"[..5] == IndexStem;
  }

  /** The sample book's chapter index: titled and placed after its folder. */
  lemma SampleChapterIndex()
    ensures var p := FromSourcePath(["book", "chapter 1", "index.html"], ["book"]);
      p.title == "chapter 1" && p.tocPath == "chapter 1"
  {
    StemAt("index.html", 5);
    assert "index.html"[..5] == IndexStem;
    var source: Path := ["book", "chapter 1", "index.html"];
    assert RelParts(source, ["book"]) == ["chapter 1", "index.html"];
  }

  /** A numbered section of the sample book: only the last extension goes. */
  lemma SampleSection()
    ensures var p := FromSourcePath(["book", "chapter 1", "1.1. Welcome.html"], ["book"]);
      p.title == "1.1. Welcome" && p.tocPath == "chapter 1/1.1. Welcome"
  {
    StemAt("1.1. Welcome.html", 12);
    assert "1.1. Welcome.html"[..12] == "1.1. Welcome";
    assert "1.1. Welcome" != IndexStem;
    var source: Path := ["book", "chapter 1", "1.1. Welcome.html"];
    var parts := RelParts(source, ["book"]);
    assert parts == ["chapter 1", "1.1. Welcome.html"];
    assert parts[..|parts| - 1] + ["1.1. Welcome"] == ["chapter 1", "1.1. Welcome"];
    assert Join(["chapter 1", "1.1. Welcome"]) == "chapter 1" + "/" + "1.1. Welcome";
    assert "chapter 1" + "/" + "1.1. Welcome" == "chapter 1/1.1. Welcome";
  }
}
