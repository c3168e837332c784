/** The project index (crow/project.py): the discovered source files, the
    fingerprint of that list, and one page per file in natural order.

    Discovery (`root.glob(pattern)`) is I/O: its result is passed to the
    operations that call it, as `discovered`. Python's `hash(tuple(...))` is
    the function value `hash`, the natural order the comparator `leq`. */
module ProjectIndex {
  import opened Model
  import Ordering

  /** Every path lies under the root (what glob under the root yields). */
  predicate AllUnder(paths: seq<Path>, root: Path) {
    forall k :: 0 <= k < |paths| ==> root <= paths[k]
  }

  /** One page per path, in the order of the paths. */
  function PagesOf(paths: seq<Path>, root: Path): (r: seq<Page>)
    requires AllUnder(paths, root)
    ensures |r| == |paths|
    ensures forall k :: 0 <= k < |paths| ==> r[k] == FromSourcePath(paths[k], root)
  {
    seq(|paths|, k requires 0 <= k < |paths| => FromSourcePath(paths[k], root))
  }

  function Sources(pages: seq<Page>): (r: seq<Path>)
    ensures |r| == |pages|
    ensures forall k :: 0 <= k < |pages| ==> r[k] == pages[k].source
  {
    seq(|pages|, k requires 0 <= k < |pages| => pages[k].source)
  }

  /** Extending the paths by one extends their pages by that path's page. */
  lemma PagesOfSnoc(paths: seq<Path>, i: nat, root: Path)
    requires AllUnder(paths, root) && i < |paths|
    ensures AllUnder(paths[..i], root) && AllUnder(paths[..i + 1], root)
    ensures PagesOf(paths[..i + 1], root) == PagesOf(paths[..i], root) + [FromSourcePath(paths[i], root)]
  {
    assert forall k :: 0 <= k < i + 1 ==> paths[..i + 1][k] == paths[k];
  }

  lemma SortKeepsUnder(paths: seq<Path>, root: Path, leq: (Path, Path) -> bool)
    requires AllUnder(paths, root)
    ensures AllUnder(Ordering.SortBy(paths, leq), root)
  {
    var sorted := Ordering.SortBy(paths, leq);
    forall k | 0 <= k < |sorted| ensures root <= sorted[k] {
      assert sorted[k] in multiset(paths);
    }
  }

  class Project {
    const root: Path
    const hash: seq<Path> -> int
    const leq: (Path, Path) -> bool

    var pages: seq<Page>
    var structureStored: seq<Path>
    var structureHashStored: int
    /** Whether `Build` has run at least once. */
    ghost var built: bool

    /** The page list a build from `discovered` produces: the pages of the
        paths, sorted naturally. */
    function Indexed(discovered: seq<Path>): (r: seq<Page>)
      requires AllUnder(discovered, root)
    {
      SortKeepsUnder(discovered, root, leq);
      PagesOf(Ordering.SortBy(discovered, leq), root)
    }

    /** Before the first build: the constructor's state. After it: the stored
        hash is the hash of the stored structure, which lies under the root. */
    ghost predicate Valid()
      reads this
    {
      if built then
        && structureHashStored == hash(structureStored)
        && AllUnder(structureStored, root)
      else
        pages == [] && structureStored == [] && structureHashStored == 0
    }

    constructor (root: Path, hash: seq<Path> -> int, leq: (Path, Path) -> bool)
      ensures Valid() && !built
      ensures this.root == root && this.hash == hash && this.leq == leq
      ensures pages == [] && structureStored == [] && structureHashStored == 0
    {
      this.root := root;
      this.hash := hash;
      this.leq := leq;
      pages := [];
      structureStored := [];
      structureHashStored := 0;
      built := false;
    }

    /** Project.build: forget the old pages, store the discovered list and
        its hash, then append one page per path in natural order. */
    method Build(discovered: seq<Path>) returns (structure: seq<Path>)
      requires AllUnder(discovered, root)
      modifies this
      ensures Valid() && built
      ensures structure == discovered && structureStored == discovered
      ensures structureHashStored == hash(discovered)
      ensures pages == Indexed(discovered)
    {
      pages := [];
      structureStored := discovered;
      structureHashStored := hash(structureStored);
      built := true;
      var sorted := Ordering.SortBy(discovered, leq);
      SortKeepsUnder(discovered, root, leq);
      for i := 0 to |sorted|
        invariant structureStored == discovered && structureHashStored == hash(discovered) && built
        invariant AllUnder(sorted[..i], root) && pages == PagesOf(sorted[..i], root)
      {
        PagesOfSnoc(sorted, i, root);
        pages := pages + [FromSourcePath(sorted[i], root)];
      }
      assert sorted[..|sorted|] == sorted;
      structure := structureStored;
    }

    /** Project.structure_hash_get_actual: the hash of the list discovery
        yields now. After a build, an unchanged list hashes as stored. */
    method StructureHashGetActual(discovered: seq<Path>) returns (h: int)
      requires Valid()
      ensures h == hash(discovered)
      ensures built && discovered == structureStored ==> h == structureHashStored
    {
      h := hash(discovered);
    }

    /** The pages_stored property. */
    method PagesStored() returns (ps: seq<Page>)
      ensures ps == pages
    {
      ps := pages;
    }

    /** The structure_stored property. */
    method StructureStored() returns (s: seq<Path>)
      ensures s == structureStored
    {
      s := structureStored;
    }

    /** The structure_hash_stored property. */
    method StructureHashStored() returns (h: int)
      ensures h == structureHashStored
    {
      h := structureHashStored;
    }

    /** The root_path property. */
    method RootPath() returns (r: Path)
      ensures r == root
    {
      r := root;
    }

    /** Every page of a build is the page of one discovered path: as
        multisets, the build's sources are exactly the discovered paths. */
    lemma IndexedCoversDiscovered(discovered: seq<Path>)
      requires AllUnder(discovered, root)
      ensures multiset(Sources(Indexed(discovered))) == multiset(discovered)
      ensures forall p :: p in discovered <==> exists k :: 0 <= k < |Indexed(discovered)| && Indexed(discovered)[k].source == p
    {
      var sorted := Ordering.SortBy(discovered, leq);
      assert Sources(Indexed(discovered)) == sorted;
      forall p ensures p in discovered <==> exists k :: 0 <= k < |sorted| && Indexed(discovered)[k].source == p {
        assert p in discovered <==> p in multiset(sorted);
        if p in discovered {
          var k :| 0 <= k < |sorted| && sorted[k] == p;
          assert Indexed(discovered)[k].source == p;
        }
      }
    }

    /** Under a total preorder, a build's pages are in natural order of
        their source paths. */
    lemma IndexedInOrder(discovered: seq<Path>)
      requires AllUnder(discovered, root) && Ordering.TotalPreorder(leq)
      ensures forall i, j :: 0 <= i < j < |Indexed(discovered)| ==>
        leq(Indexed(discovered)[i].source, Indexed(discovered)[j].source)
    {
      Ordering.SortBySorted(discovered, leq);
    }
  }
}
