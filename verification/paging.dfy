/**
 The incremental pager behind every "load more on scroll" list of the
 application: the track and artist selectors of the edit dialog and the
 track list of the selected playlist. A cursor holds the rows shown so far,
 the offset of the next page, whether more rows may exist, and a busy flag.
 */
module Paging {
  import opened Base

  /** Rows fetched per page by every pager of the application. */
  const PageSize: nat := 15

  datatype Cursor<T> = Cursor(items: seq<T>, loaded: nat, hasMore: bool, isLoading: bool)

  /** A page query: the number of rows to skip and the number to take, to a page. */
  type Fetch<T> = (nat, nat) -> seq<T>

  /** The query cuts its pages from `src` with `Skip(skip).Take(take)` semantics. */
  ghost predicate SlicesOf<T>(fetch: Fetch<T>, src: seq<T>)
  {
    forall skip: nat, take: nat :: fetch(skip, take) == Slice(src, skip, take)
  }

  /**
   The cursor shows a prefix of `src` whose length is the offset of the next
   page, and all of `src` once it has stopped expecting more.
   */
  predicate Follows<T(==)>(c: Cursor<T>, src: seq<T>)
  {
    && c.loaded == |c.items|
    && c.items <= src
    && (!c.hasMore ==> c.items == src)
  }

  /** Starting over: no rows, offset 0, more rows expected; the busy flag is left alone. */
  function Reset<T>(c: Cursor<T>): (r: Cursor<T>)
    ensures r.items == [] && r.loaded == 0 && r.hasMore
    ensures r.isLoading == c.isLoading
  {
    c.(items := [], loaded := 0, hasMore := true)
  }

  /**
   One load of the track selector (and of the playlist track list): while
   busy or once no more rows are expected nothing happens; otherwise the next
   page is appended, the offset grows by its size, a page shorter than a
   full page stops further loads, and the busy flag is clear afterwards.
   */
  function LoadNextPage<T>(c: Cursor<T>, fetch: Fetch<T>): (r: Cursor<T>)
    ensures c.isLoading || !c.hasMore ==> r == c
    ensures !c.isLoading && c.hasMore ==>
      && r.items == c.items + fetch(c.loaded, PageSize)
      && !r.isLoading
      && (r.hasMore <==> |fetch(c.loaded, PageSize)| >= PageSize)
    ensures r.loaded - c.loaded == |r.items| - |c.items|
  {
    if c.isLoading || !c.hasMore then c
    else
      var page := fetch(c.loaded, PageSize);
      var moreAfterShortPage := if |page| < PageSize then false else c.hasMore;
      var moreAfterEmptyPage := if |page| == 0 then false else moreAfterShortPage;
      Cursor(c.items + page, c.loaded + |page|, moreAfterEmptyPage, false)
  }

  /**
   One load of the artist selector, which checks for an empty page before
   appending rather than after. It behaves exactly like the track selector.
   */
  function LoadNextArtistsPage<T>(c: Cursor<T>, fetch: Fetch<T>): (r: Cursor<T>)
    ensures r == LoadNextPage(c, fetch)
  {
    if c.isLoading || !c.hasMore then c
    else
      var page := fetch(c.loaded, PageSize);
      if |page| == 0 then c.(hasMore := false, isLoading := false)
      else
        var more := if |page| < PageSize then false else c.hasMore;
        Cursor(c.items + page, c.loaded + |page|, more, false)
  }

  /** `n` successive loads. */
  function Drive<T>(c: Cursor<T>, fetch: Fetch<T>, n: nat): Cursor<T>
    decreases n
  {
    if n == 0 then c else Drive(LoadNextPage(c, fetch), fetch, n - 1)
  }

  /** Loads needed to reach the end of `src` from the cursor's offset. */
  function PagesLeft(loaded: nat, size: nat): nat
  {
    if loaded >= size then 1 else (size - loaded) / PageSize + 1
  }

  /**
   Against a fixed source, a load keeps the cursor a prefix of the source and,
   when it runs, advances the offset by a full page or to the end.
   */
  lemma LoadKeepsFollows<T>(c: Cursor<T>, fetch: Fetch<T>, src: seq<T>)
    requires SlicesOf(fetch, src) && Follows(c, src)
    ensures Follows(LoadNextPage(c, fetch), src)
    ensures !c.isLoading && c.hasMore ==>
      LoadNextPage(c, fetch).loaded == Min(c.loaded + PageSize, |src|)
  {
    if !c.isLoading && c.hasMore {
      var page := fetch(c.loaded, PageSize);
      assert page == Slice(src, c.loaded, PageSize);
      assert c.items == src[..c.loaded];
      SliceConcat(src, c.loaded, PageSize);
      if |page| < PageSize {
        assert src[..Min(c.loaded + PageSize, |src|)] == src;
      }
    }
  }

  /** However many loads run against a fixed source, the rows shown stay a prefix of it. */
  lemma {:induction false} DriveKeepsFollows<T>(c: Cursor<T>, fetch: Fetch<T>, src: seq<T>, n: nat)
    requires SlicesOf(fetch, src) && Follows(c, src)
    ensures Follows(Drive(c, fetch, n), src)
    decreases n
  {
    if n > 0 {
      LoadKeepsFollows(c, fetch, src);
      DriveKeepsFollows(LoadNextPage(c, fetch), fetch, src, n - 1);
    }
  }

  /**
   Enough loads from an idle cursor against a fixed source show exactly the
   source, with no row twice and none missing, and stop expecting more.
   */
  lemma {:induction false} DriveCompletes<T>(c: Cursor<T>, fetch: Fetch<T>, src: seq<T>, n: nat)
    requires SlicesOf(fetch, src) && Follows(c, src) && !c.isLoading
    requires n >= PagesLeft(c.loaded, |src|)
    ensures Drive(c, fetch, n).items == src
    ensures !Drive(c, fetch, n).hasMore && !Drive(c, fetch, n).isLoading
    decreases n
  {
    var next := LoadNextPage(c, fetch);
    LoadKeepsFollows(c, fetch, src);
    if !c.hasMore {
      assert next == c;
      if n > 1 {
        DriveCompletes(next, fetch, src, n - 1);
      }
    } else if next.hasMore {
      assert next.loaded == c.loaded + PageSize;
      DriveCompletes(next, fetch, src, n - 1);
    } else if n > 1 {
      DriveCompletes(next, fetch, src, n - 1);
    }
  }

  /**
   A row that is not shown and does not occur at or after the offset in a
   fixed source is never shown, however many loads run.
   */
  lemma {:induction false} DriveNeverShows<T>(c: Cursor<T>, fetch: Fetch<T>, src: seq<T>, x: T, n: nat)
    requires SlicesOf(fetch, src)
    requires x !in c.items
    requires forall i | c.loaded <= i < |src| :: src[i] != x
    ensures x !in Drive(c, fetch, n).items
    decreases n
  {
    if n > 0 {
      var next := LoadNextPage(c, fetch);
      if !c.isLoading && c.hasMore {
        var page := fetch(c.loaded, PageSize);
        assert page == Slice(src, c.loaded, PageSize);
        assert forall i | 0 <= i < |page| :: page[i] == src[c.loaded + i];
        assert next.items == c.items + page;
      }
      DriveNeverShows(next, fetch, src, x, n - 1);
    }
  }
}
