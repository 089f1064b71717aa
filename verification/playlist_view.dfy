/**
 The playlist side of the main window: the selected playlist, its track
 list `Tracks` loaded page by page on scroll, and the selected row of that
 list, which can be removed from the playlist.
 */
module PlaylistView {
  import opened Base
  import opened Entities
  import opened MusicService
  import opened Paging
  import Ids

  /**
   The view's state: the cursor over `Tracks` (its rows, `_currentOffset`,
   `_hasMoreTracks` and `IsLoading`), the selected playlist and the selected
   row of `Tracks`.
   */
  datatype View = View(tracks: Cursor<Track>, selectedPlaylist: Option<Playlist>, selectedTrack: Option<Track>)

  /** The playlist's pages as the paged track query serves them. */
  function PlaylistPages(s: Store, playlistId: int): Fetch<Track>
  {
    (skip: nat, take: nat) => GetTracksForPlaylistPaged(s, playlistId, skip, take)
  }

  /** The paged query cuts its pages from the playlist's tracks in ascending id order. */
  lemma PlaylistPagesSlice(s: Store, playlistId: int)
    ensures SlicesOf(PlaylistPages(s, playlistId), PlaylistOrder(s, playlistId))
  {
    var order := PlaylistOrder(s, playlistId);
    forall skip: nat, take: nat
      ensures PlaylistPages(s, playlistId)(skip, take) == Slice(order, skip, take)
    {
      var page := GetTracksForPlaylistPaged(s, playlistId, skip, take);
      var slice := Slice(order, skip, take);
      assert |page| == |slice|;
      assert forall i | 0 <= i < |page| :: page[i] == slice[i];
    }
  }

  // ---- Paging ----

  /**
   `LoadMoreTracksAsync`: nothing happens once no more tracks are expected,
   while a load runs, or without a selected playlist. Otherwise the next page
   of the playlist's tracks is appended, the offset grows by exactly the
   number of rows appended, a page shorter than a full page ends the paging,
   and the busy flag is clear afterwards.
   */
  function LoadMoreTracks(v: View, s: Store): (r: View)
    ensures !v.tracks.hasMore || v.tracks.isLoading || v.selectedPlaylist.None? ==> r == v
    ensures r.selectedPlaylist == v.selectedPlaylist && r.selectedTrack == v.selectedTrack
    ensures r.tracks.loaded - v.tracks.loaded == |r.tracks.items| - |v.tracks.items|
    ensures v.tracks.hasMore && !v.tracks.isLoading && v.selectedPlaylist.Some? ==>
      var page := GetTracksForPlaylistPaged(s, v.selectedPlaylist.value.id, v.tracks.loaded, PageSize);
      && r.tracks.items == v.tracks.items + page
      && (r.tracks.hasMore <==> |page| >= PageSize)
      && !r.tracks.isLoading
  {
    if v.selectedPlaylist.None? then v
    else v.(tracks := LoadNextPage(v.tracks, PlaylistPages(s, v.selectedPlaylist.value.id)))
  }

  /**
   The `SelectedPlaylist` setter. Choosing a playlist starts its track list
   over (offset 0, more tracks expected, no rows) and loads the first page;
   the selected row is left as it was. Choosing none empties the list and
   the selected row, and leaves the offset and the more-tracks flag alone.
   */
  function SelectPlaylist(v: View, p: Option<Playlist>, s: Store): (r: View)
    ensures r.selectedPlaylist == p
    ensures p.Some? ==> r.selectedTrack == v.selectedTrack
    ensures p.Some? && !v.tracks.isLoading ==>
      && r.tracks.items == GetTracksForPlaylistPaged(s, p.value.id, 0, PageSize)
      && r.tracks.loaded == |r.tracks.items|
      && (r.tracks.hasMore <==> |r.tracks.items| >= PageSize)
      && !r.tracks.isLoading
    ensures p.Some? && v.tracks.isLoading ==> r.tracks == Reset(v.tracks)
    ensures p.None? ==>
      && r.tracks.items == [] && r.selectedTrack.None?
      && r.tracks.loaded == v.tracks.loaded && r.tracks.hasMore == v.tracks.hasMore
      && r.tracks.isLoading == v.tracks.isLoading
  {
    if p.Some? then LoadMoreTracks(v.(selectedPlaylist := p, tracks := Reset(v.tracks)), s)
    else v.(selectedPlaylist := None, tracks := v.tracks.(items := []), selectedTrack := None)
  }

  /** `n` scroll-triggered loads. */
  function Scroll(v: View, s: Store, n: nat): View
    decreases n
  {
    if n == 0 then v else Scroll(LoadMoreTracks(v, s), s, n - 1)
  }

  /** With a playlist selected, scrolling drives the cursor with that playlist's pages. */
  lemma {:induction false} ScrollDrives(v: View, s: Store, n: nat)
    requires v.selectedPlaylist.Some?
    ensures Scroll(v, s, n).selectedPlaylist == v.selectedPlaylist
    ensures Scroll(v, s, n).selectedTrack == v.selectedTrack
    ensures Scroll(v, s, n).tracks == Drive(v.tracks, PlaylistPages(s, v.selectedPlaylist.value.id), n)
    decreases n
  {
    if n > 0 {
      ScrollDrives(LoadMoreTracks(v, s), s, n - 1);
    }
  }

  /**
   With the store fixed, selecting a playlist and scrolling keeps `Tracks` a
   prefix of the playlist's tracks in id order with the offset equal to its
   length, and enough scrolling shows exactly those tracks, each once.
   */
  lemma SelectAndScrollListsPlaylist(v: View, p: Playlist, s: Store, n: nat)
    requires !v.tracks.isLoading
    ensures Follows(Scroll(SelectPlaylist(v, Some(p), s), s, n).tracks, PlaylistOrder(s, p.id))
    ensures n >= |PlaylistOrder(s, p.id)| / PageSize + 1 ==>
      Scroll(SelectPlaylist(v, Some(p), s), s, n).tracks.items == PlaylistOrder(s, p.id)
  {
    var order := PlaylistOrder(s, p.id);
    var fetch := PlaylistPages(s, p.id);
    var selected := SelectPlaylist(v, Some(p), s);
    PlaylistPagesSlice(s, p.id);
    LoadKeepsFollows(Reset(v.tracks), fetch, order);
    ScrollDrives(selected, s, n);
    DriveKeepsFollows(selected.tracks, fetch, order, n);
    if n >= |order| / PageSize + 1 {
      assert PagesLeft(selected.tracks.loaded, |order|) <= |order| / PageSize + 1;
      DriveCompletes(selected.tracks, fetch, order, n);
    }
  }

  // ---- Removing the selected track ----

  /** `Remove`: `xs` without the first occurrence of `x`, if any. */
  function RemoveFirst<T(==)>(xs: seq<T>, x: T): (r: seq<T>)
    ensures x !in xs ==> r == xs
    ensures x in xs ==> exists k | 0 <= k < |xs| :: xs[k] == x && x !in xs[..k] && r == xs[..k] + xs[k + 1..]
  {
    var k := IndexOf(xs, x);
    if k < 0 then xs
    else
      assert xs == xs[..k] + [x] + xs[k + 1..];
      xs[..k] + xs[k + 1..]
  }

  /**
   `RemoveTrackFromPlaylistAsync` as written: without a selected playlist and
   row nothing happens; otherwise the pair is deleted from the store, the row
   leaves `Tracks`, the selection is cleared, and the offset of the next page
   is left where it was.
   */
  function RemoveSelectedTrackAsWritten(v: View, s: Store): (r: (Store, View))
    ensures v.selectedPlaylist.None? || v.selectedTrack.None? ==> r == (s, v)
    ensures v.selectedPlaylist.Some? && v.selectedTrack.Some? ==>
      && r.0 == RemoveTrackFromPlaylist(s, v.selectedPlaylist.value.id, v.selectedTrack.value.id)
      && r.1.tracks.items == RemoveFirst(v.tracks.items, v.selectedTrack.value)
      && r.1.selectedTrack.None? && r.1.selectedPlaylist == v.selectedPlaylist
      && r.1.tracks.loaded == v.tracks.loaded
      && r.1.tracks.hasMore == v.tracks.hasMore && r.1.tracks.isLoading == v.tracks.isLoading
  {
    if v.selectedPlaylist.None? || v.selectedTrack.None? then (s, v)
    else
      var t := v.selectedTrack.value;
      var s' := RemoveTrackFromPlaylist(s, v.selectedPlaylist.value.id, t.id);
      (s', v.(tracks := v.tracks.(items := RemoveFirst(v.tracks.items, t)), selectedTrack := None))
  }

  /**
   `RemoveTrackFromPlaylistAsync` with the offset of the next page moved back
   by the row that left `Tracks`, so the pages still line up with the store.
   */
  function RemoveSelectedTrack(v: View, s: Store): (r: (Store, View))
    ensures v.selectedPlaylist.None? || v.selectedTrack.None? ==> r == (s, v)
    ensures v.selectedPlaylist.Some? && v.selectedTrack.Some? ==>
      && r.0 == RemoveTrackFromPlaylist(s, v.selectedPlaylist.value.id, v.selectedTrack.value.id)
      && r.1.tracks.items == RemoveFirst(v.tracks.items, v.selectedTrack.value)
      && r.1.selectedTrack.None? && r.1.selectedPlaylist == v.selectedPlaylist
      && r.1.tracks.hasMore == v.tracks.hasMore && r.1.tracks.isLoading == v.tracks.isLoading
    ensures v.selectedPlaylist.Some? && v.selectedTrack.Some? && v.tracks.loaded == |v.tracks.items| ==>
      r.1.tracks.loaded == |r.1.tracks.items|
  {
    if v.selectedPlaylist.None? || v.selectedTrack.None? then (s, v)
    else
      var t := v.selectedTrack.value;
      var s' := RemoveTrackFromPlaylist(s, v.selectedPlaylist.value.id, t.id);
      var loaded := if t in v.tracks.items && v.tracks.loaded > 0 then v.tracks.loaded - 1 else v.tracks.loaded;
      (s', v.(tracks := v.tracks.(items := RemoveFirst(v.tracks.items, t), loaded := loaded), selectedTrack := None))
  }

  /** Two sequences of tracks in strictly ascending id order with the same members are equal. */
  lemma IdsAscendingUnique(a: seq<Track>, b: seq<Track>)
    requires IdsAscending(a) && IdsAscending(b)
    requires forall t :: t in a <==> t in b
    ensures a == b
  {
    var ia := seq(|a|, i requires 0 <= i < |a| => a[i].id);
    var ib := seq(|b|, i requires 0 <= i < |b| => b[i].id);
    forall x
      ensures x in ia <==> x in ib
    {
      if x in ia {
        var i :| 0 <= i < |a| && ia[i] == x;
        assert a[i] in b;
        var j :| 0 <= j < |b| && b[j] == a[i];
        assert ib[j] == x;
      }
      if x in ib {
        var j :| 0 <= j < |b| && ib[j] == x;
        assert b[j] in a;
        var i :| 0 <= i < |a| && a[i] == b[j];
        assert ia[i] == x;
      }
    }
    Ids.AscendingUnique(ia, ib);
    forall i | 0 <= i < |a|
      ensures a[i] == b[i]
    {
      assert a[i] in b;
      var j :| 0 <= j < |b| && b[j] == a[i];
      assert ib[j] == ia[i];
      assert j == i;
    }
  }

  /** Dropping position `k` keeps the ids ascending and removes exactly the track at `k`. */
  lemma RemoveAtIdsAscending(ts: seq<Track>, k: nat)
    requires IdsAscending(ts) && k < |ts|
    ensures IdsAscending(ts[..k] + ts[k + 1..])
    ensures forall t :: t in ts[..k] + ts[k + 1..] <==> t in ts && t.id != ts[k].id
  {
    var rest := ts[..k] + ts[k + 1..];
    assert forall i | 0 <= i < |rest| :: rest[i] == (if i < k then ts[i] else ts[i + 1]);
    forall t
      ensures t in rest <==> t in ts && t.id != ts[k].id
    {
      if t in ts && t.id != ts[k].id {
        var j :| 0 <= j < |ts| && ts[j] == t;
        assert j != k;
        if j < k { assert rest[j] == t; } else { assert rest[j - 1] == t; }
      }
    }
  }

  /** After the pair is deleted, the playlist holds exactly its other tracks. */
  lemma InPlaylistAfterRemoval(s: Store, playlistId: int, trackId: int, t: Track)
    ensures InPlaylist(RemoveTrackFromPlaylist(s, playlistId, trackId), playlistId, t)
        <==> InPlaylist(s, playlistId, t) && t.id != trackId
  {
  }

  /** Deleting the pair of the playlist's `k`-th track takes exactly that track out of its id order. */
  lemma OrderAfterRemoval(s: Store, playlistId: int, k: nat)
    requires k < |PlaylistOrder(s, playlistId)|
    ensures
      var order := PlaylistOrder(s, playlistId);
      PlaylistOrder(RemoveTrackFromPlaylist(s, playlistId, order[k].id), playlistId) == order[..k] + order[k + 1..]
  {
    var order := PlaylistOrder(s, playlistId);
    var s' := RemoveTrackFromPlaylist(s, playlistId, order[k].id);
    var order' := PlaylistOrder(s', playlistId);
    RemoveAtIdsAscending(order, k);
    forall t
      ensures t in order[..k] + order[k + 1..] <==> t in order'
    {
      InPlaylistAfterRemoval(s, playlistId, order[k].id, t);
    }
    IdsAscendingUnique(order[..k] + order[k + 1..], order');
  }

  /**
   Removing a shown row from a list that is a prefix of `order` leaves a
   prefix of `order` without that row, one shorter.
   */
  lemma RemoveFirstOfPrefix(items: seq<Track>, order: seq<Track>, t: Track) returns (k: nat)
    requires items <= order && t in items
    ensures k < |items| && order[k] == t
    ensures RemoveFirst(items, t) == (order[..k] + order[k + 1..])[..|items| - 1]
  {
    k := IndexOf(items, t);
    assert RemoveFirst(items, t) == items[..k] + items[k + 1..];
    DropFromPrefix(items, order, k);
  }

  /** Dropping position `k` of a prefix of `order` gives the same rows as dropping it from `order` and cutting. */
  lemma DropFromPrefix<T>(items: seq<T>, order: seq<T>, k: nat)
    requires items <= order && k < |items|
    ensures order[k] == items[k]
    ensures items[..k] + items[k + 1..] == (order[..k] + order[k + 1..])[..|items| - 1]
  {
    var a := items[..k] + items[k + 1..];
    var b := (order[..k] + order[k + 1..])[..|items| - 1];
    assert |a| == |b|;
    forall i | 0 <= i < |a|
      ensures a[i] == b[i]
    {
      if i < k {
        assert a[i] == items[i] && b[i] == order[i];
      } else {
        assert a[i] == items[i + 1] && b[i] == order[i + 1];
      }
    }
  }

  /**
   Removing a shown track with the offset moved back keeps `Tracks` in step
   with the changed playlist, so further scrolling still ends with exactly
   the playlist's remaining tracks.
   */
  lemma RemoveSelectedTrackKeepsFollows(v: View, s: Store)
    requires v.selectedPlaylist.Some? && v.selectedTrack.Some?
    requires Follows(v.tracks, PlaylistOrder(s, v.selectedPlaylist.value.id))
    requires v.selectedTrack.value in v.tracks.items
    ensures
      var after := RemoveSelectedTrack(v, s);
      Follows(after.1.tracks, PlaylistOrder(after.0, v.selectedPlaylist.value.id))
  {
    var pid := v.selectedPlaylist.value.id;
    var order := PlaylistOrder(s, pid);
    var t := v.selectedTrack.value;
    var k := RemoveFirstOfPrefix(v.tracks.items, order, t);
    OrderAfterRemoval(s, pid, k);
    var after := RemoveSelectedTrack(v, s);
    var order' := PlaylistOrder(after.0, pid);
    assert order' == order[..k] + order[k + 1..];
    assert after.1.tracks.items == order'[..|v.tracks.items| - 1];
    assert after.1.tracks.loaded == |after.1.tracks.items|;
  }

  /**
   As written, removing a shown track while more pages remain makes the next
   row of the playlist invisible: it is still in the playlist, yet no amount
   of scrolling ever brings it into `Tracks`, because the next page is
   requested one row too far along.
   */
  lemma RemovalSkipsNextRow(v: View, s: Store, n: nat)
    requires v.selectedPlaylist.Some? && v.selectedTrack.Some?
    requires Follows(v.tracks, PlaylistOrder(s, v.selectedPlaylist.value.id))
    requires v.selectedTrack.value in v.tracks.items
    requires v.tracks.loaded < |PlaylistOrder(s, v.selectedPlaylist.value.id)|
    ensures
      var pid := v.selectedPlaylist.value.id;
      var skipped := PlaylistOrder(s, pid)[v.tracks.loaded];
      var after := RemoveSelectedTrackAsWritten(v, s);
      && skipped in PlaylistOrder(after.0, pid)
      && skipped !in Scroll(after.1, after.0, n).tracks.items
  {
    var after := RemoveSelectedTrackAsWritten(v, s);
    SkippedAfterRemoval(v, s);
    ScrollNeverShows(after.1, after.0, PlaylistOrder(s, v.selectedPlaylist.value.id)[v.tracks.loaded], n);
  }

  /**
   Right after the removal as written, the row that followed the loaded ones
   is still in the playlist but neither shown nor at or after the offset.
   */
  lemma SkippedAfterRemoval(v: View, s: Store)
    requires v.selectedPlaylist.Some? && v.selectedTrack.Some?
    requires Follows(v.tracks, PlaylistOrder(s, v.selectedPlaylist.value.id))
    requires v.selectedTrack.value in v.tracks.items
    requires v.tracks.loaded < |PlaylistOrder(s, v.selectedPlaylist.value.id)|
    ensures
      var pid := v.selectedPlaylist.value.id;
      var skipped := PlaylistOrder(s, pid)[v.tracks.loaded];
      var after := RemoveSelectedTrackAsWritten(v, s);
      var order' := PlaylistOrder(after.0, pid);
      && after.1.selectedPlaylist == v.selectedPlaylist
      && 0 < after.1.tracks.loaded <= |order'| && order'[after.1.tracks.loaded - 1] == skipped
      && skipped !in after.1.tracks.items
      && forall i | after.1.tracks.loaded <= i < |order'| :: order'[i] != skipped
  {
    var loaded := v.tracks.loaded;
    var order := PlaylistOrder(s, v.selectedPlaylist.value.id);
    var k, after, order' := RemovalAsWritten(v, s);
    GapAfterDrop(order, order', k, loaded);
  }

  /**
   What the removal as written leaves behind, when the selected track is the
   shown row `k`: the playlist's order loses position `k`, `Tracks` is the
   shorter prefix of it, and the offset still counts the removed row.
   */
  lemma RemovalAsWritten(v: View, s: Store) returns (k: nat, after: (Store, View), order': seq<Track>)
    requires v.selectedPlaylist.Some? && v.selectedTrack.Some?
    requires Follows(v.tracks, PlaylistOrder(s, v.selectedPlaylist.value.id))
    requires v.selectedTrack.value in v.tracks.items
    ensures after == RemoveSelectedTrackAsWritten(v, s)
    ensures order' == PlaylistOrder(after.0, v.selectedPlaylist.value.id)
    ensures k < v.tracks.loaded
    ensures order' == PlaylistOrder(s, v.selectedPlaylist.value.id)[..k] + PlaylistOrder(s, v.selectedPlaylist.value.id)[k + 1..]
    ensures after.1.tracks.items == order'[..v.tracks.loaded - 1]
    ensures after.1.tracks.loaded == v.tracks.loaded
    ensures after.1.selectedPlaylist == v.selectedPlaylist
  {
    var order := PlaylistOrder(s, v.selectedPlaylist.value.id);
    k := RemoveFirstOfPrefix(v.tracks.items, order, v.selectedTrack.value);
    OrderAfterRemoval(s, v.selectedPlaylist.value.id, k);
    after := RemoveSelectedTrackAsWritten(v, s);
    order' := PlaylistOrder(after.0, v.selectedPlaylist.value.id);
  }

  /**
   Dropping position `k` of an ascending order moves the row at `loaded`,
   past `k`, to `loaded - 1`; no other position of what is left holds it.
   */
  lemma GapAfterDrop(order: seq<Track>, rest: seq<Track>, k: nat, loaded: nat)
    requires IdsAscending(order) && k < loaded < |order|
    requires rest == order[..k] + order[k + 1..]
    ensures loaded - 1 < |rest| && rest[loaded - 1] == order[loaded]
    ensures order[loaded] !in rest[..loaded - 1]
    ensures forall i | loaded <= i < |rest| :: rest[i] != order[loaded]
  {
    assert rest[loaded - 1] == order[loaded];
    var items := rest[..loaded - 1];
    forall i | 0 <= i < |items|
      ensures items[i].id < order[loaded].id
    {
      if i < k {
        assert items[i] == order[i];
      } else {
        assert items[i] == order[i + 1];
      }
    }
    forall i | loaded <= i < |rest|
      ensures rest[i] != order[loaded]
    {
      assert rest[i] == order[i + 1];
    }
  }

  /**
   A row that is not shown and does not occur at or after the offset in the
   playlist's order never appears, however far the list is scrolled.
   */
  lemma ScrollNeverShows(v: View, s: Store, x: Track, n: nat)
    requires v.selectedPlaylist.Some?
    requires x !in v.tracks.items
    requires forall i | v.tracks.loaded <= i < |PlaylistOrder(s, v.selectedPlaylist.value.id)| ::
      PlaylistOrder(s, v.selectedPlaylist.value.id)[i] != x
    ensures x !in Scroll(v, s, n).tracks.items
  {
    var pid := v.selectedPlaylist.value.id;
    ScrollDrives(v, s, n);
    PlaylistPagesSlice(s, pid);
    DriveNeverShows(v.tracks, PlaylistPages(s, pid), PlaylistOrder(s, pid), x, n);
  }
}
