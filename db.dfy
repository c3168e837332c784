/** The page record store (the four page operations of crow/db.py).

    The `pages` table has `title` as its PRIMARY KEY, so the store is a map
    from title to page. Each operation is one transaction: the bulk insert
    either commits every row or, on the first UNIQUE violation, rolls back
    and leaves the table as it was. */
module Db {
  import opened Wrappers
  import opened Model

  /** sqlite3.IntegrityError. The `title` (the row whose insert broke the
      key) is a modelling addition: the exception raised by the source names
      only the constraint, and callers never read it. */
  datatype StoreError = IntegrityError(title: string)

  /** Every entry is stored under its own title. */
  ghost predicate KeyedByTitle(m: map<string, Page>) {
    forall t :: t in m ==> m[t].title == t
  }

  /** No title occurs twice in the batch. */
  predicate DistinctTitles(batch: seq<Page>) {
    forall i, j :: 0 <= i < j < |batch| ==> batch[i].title != batch[j].title
  }

  /** No page of the batch has a title already in the table. */
  predicate FreshTitles(m: map<string, Page>, batch: seq<Page>) {
    forall k :: 0 <= k < |batch| ==> batch[k].title !in m
  }

  /** executemany(INSERT ...): the rows in order, stopping at the first one
      whose title is already present. */
  function InsertAll(m: map<string, Page>, batch: seq<Page>): (r: Result<map<string, Page>, StoreError>)
    ensures r.Err? ==> exists k :: 0 <= k < |batch| && batch[k].title == r.error.title
    decreases |batch|
  {
    if |batch| == 0 then Ok(m)
    else if batch[0].title in m then Err(IntegrityError(batch[0].title))
    else
      var r := InsertAll(m[batch[0].title := batch[0]], batch[1..]);
      if r.Err? then
        var k :| 0 <= k < |batch[1..]| && batch[1..][k].title == r.error.title;
        assert batch[k + 1].title == r.error.title;
        r
      else r
  }

  /** The insert succeeds exactly when the batch's titles are distinct and
      none is already stored. */
  lemma {:induction false} InsertAllSucceedsIff(m: map<string, Page>, batch: seq<Page>)
    ensures InsertAll(m, batch).Ok? <==> DistinctTitles(batch) && FreshTitles(m, batch)
    decreases |batch|
  {
    if |batch| > 0 {
      var m' := m[batch[0].title := batch[0]];
      InsertAllSucceedsIff(m', batch[1..]);
      if batch[0].title !in m {
        // The rest fits into m' exactly when it is distinct, avoids m, and
        // avoids the first title.
        if DistinctTitles(batch) && FreshTitles(m, batch) {
          forall k | 0 <= k < |batch[1..]| ensures batch[1..][k].title !in m' {
            assert batch[1..][k] == batch[k + 1];
          }
          forall i, j | 0 <= i < j < |batch[1..]| ensures batch[1..][i].title != batch[1..][j].title {
            assert batch[1..][i] == batch[i + 1] && batch[1..][j] == batch[j + 1];
          }
        }
        if DistinctTitles(batch[1..]) && FreshTitles(m', batch[1..]) {
          forall i, j | 0 <= i < j < |batch| ensures batch[i].title != batch[j].title {
            assert batch[j] == batch[1..][j - 1];
            if i > 0 { assert batch[i] == batch[1..][i - 1]; }
          }
          forall k | 0 <= k < |batch| ensures batch[k].title !in m {
            if k > 0 { assert batch[k] == batch[1..][k - 1]; }
          }
        }
      }
    }
  }

  /** A successful insert keeps every old entry and adds exactly the batch,
      each page under its own title. */
  lemma {:induction false} InsertAllContents(m: map<string, Page>, batch: seq<Page>)
    requires InsertAll(m, batch).Ok?
    ensures var m' := InsertAll(m, batch).value;
      && (forall t :: t in m' <==> t in m || exists k :: 0 <= k < |batch| && batch[k].title == t)
      && (forall t :: t in m ==> m'[t] == m[t])
      && (forall k :: 0 <= k < |batch| ==> m'[batch[k].title] == batch[k])
    decreases |batch|
  {
    if |batch| > 0 {
      var m1 := m[batch[0].title := batch[0]];
      InsertAllContents(m1, batch[1..]);
      InsertAllSucceedsIff(m1, batch[1..]);
      var m' := InsertAll(m, batch).value;
      forall k | 0 <= k < |batch| ensures m'[batch[k].title] == batch[k] {
        if k > 0 { assert batch[k] == batch[1..][k - 1]; }
        else { assert batch[0].title !in m1 - {batch[0].title}; }
      }
      forall t ensures t in m' <==> t in m || exists k :: 0 <= k < |batch| && batch[k].title == t {
        if exists k :: 0 <= k < |batch[1..]| && batch[1..][k].title == t {
          var k :| 0 <= k < |batch[1..]| && batch[1..][k].title == t;
          assert batch[k + 1].title == t;
        }
        if exists k :: 0 <= k < |batch| && batch[k].title == t {
          var k :| 0 <= k < |batch| && batch[k].title == t;
          if k > 0 { assert batch[1..][k - 1].title == t; }
        }
      }
    }
  }

  /** The store of page records. */
  class PageStore {
    var pages: map<string, Page>

    ghost predicate Valid()
      reads this
    {
      KeyedByTitle(pages)
    }

    /** A freshly initialised (truncated) database: no pages. */
    constructor ()
      ensures Valid() && pages == map[]
    {
      pages := map[];
    }

    /** page_get_by_title: the stored page, or None for an unknown title. */
    method GetByTitle(title: string) returns (r: Option<Page>)
      requires Valid()
      ensures r.None? <==> title !in pages
      ensures r.Some? ==> r.value == pages[title] && r.value.title == title
    {
      if title in pages {
        r := Some(pages[title]);
      } else {
        r := None;
      }
    }

    /** page_update_modified: UPDATE ... SET modified WHERE title. Only the
        `modified` field of that one row changes; no row, no change. */
    method UpdateModified(page: Page)
      requires Valid()
      modifies this
      ensures Valid()
      ensures page.title in old(pages) ==>
        pages == old(pages)[page.title := old(pages)[page.title].WithMark(page.modified)]
      ensures page.title !in old(pages) ==> pages == old(pages)
    {
      if page.title in pages {
        pages := pages[page.title := pages[page.title].WithMark(page.modified)];
      }
    }

    /** pages_add: one transaction inserting the batch row by row; on the
        first duplicate title it rolls back and raises. */
    method AddAll(batch: seq<Page>) returns (r: Result<(), StoreError>)
      requires Valid()
      modifies this
      ensures Valid()
      ensures r.Ok? <==> InsertAll(old(pages), batch).Ok?
      ensures r.Ok? ==> pages == InsertAll(old(pages), batch).value
      ensures r.Err? ==> pages == old(pages) && r.error == InsertAll(old(pages), batch).error
    {
      var staged := pages;
      var i := 0;
      while i < |batch|
        invariant 0 <= i <= |batch|
        invariant KeyedByTitle(staged)
        invariant InsertAll(pages, batch) == InsertAll(staged, batch[i..])
      {
        if batch[i].title in staged {
          // Rollback: the table keeps its old rows.
          r := Err(IntegrityError(batch[i].title));
          return;
        }
        assert batch[i..][1..] == batch[i + 1..];
        staged := staged[batch[i].title := batch[i]];
        i := i + 1;
      }
      // Commit.
      pages := staged;
      r := Ok(());
    }

    /** pages_clear: DELETE FROM pages. */
    method Clear()
      modifies this
      ensures Valid() && pages == map[]
    {
      pages := map[];
    }
  }
}
